# Bitchat-Meshtastic bridge: a verified model

The bridge carries text between a Bitchat Bluetooth mesh and a Meshtastic radio. This project
models the parts of it where correctness rests on arithmetic, state or order, and proves what
those parts promise for all inputs, all runs or all reachable states.

- **ChaCha20-Poly1305** (`Poly1305`, `ChaCha20`, `ChaChaPoly`): 32-bit limb arithmetic modulo
  2^130 - 5, the block function and its inverse, and three streaming contexts that agree with
  one-shot definitions (RFC 8439, sections 2.1 to 2.5 and 2.8) for every way of cutting the
  input. `ChaCha20Words` repeats the rounds on 32-bit vectors and proves them equal;
  it and `Poly1305Example` prove the RFC's examples.
- **Ed25519** (`Ed25519Field`, `Ed25519Curve`, `Ed25519Group`, `Ed25519Pack`, `Ed25519Point`,
  `Ed25519Scalar`): sixteen signed limbs, carries, canonical packing, exponent chains, point
  addition and its closure on the curve, the scalar ladder, point decoding and encoding, and
  reduction modulo the group order (RFC 8032, section 5.1).
- **Noise XX** (`Noise`, `NoiseState`): the handshake and transport of both ends over an abstract
  key agreement, hash and key derivation and over the AEAD above.
- **Packet engine** (`RxRing`, `Fragments`, `PacketEngine`, `Gossip`, `Dedup`): the receive ring
  under every interleaving, out-of-order reassembly, the self-feeding drain loop, TTL gossip and
  the duplicate windows.
- **Meshtastic side** (`MeshProto`, `Framer`, `Utf8`, `Splitter`, `LongMessage`): the protobuf
  subset, the framing automaton, the long-message splitter, and the three put together: what the
  bridge writes to the radio, the radio's own step as an explicit function (it moves the packet from
  field 1 to field 2 and puts its number in front), and what the receiving bridge reads.

`Bits`, `Bytes`, `Modular`, `PrimeField` and `Wrappers` hold what they share. Machine words are subset types of
`int`; every wrap-around, mask and truncating cast is written out. Code that updates state in place
is modelled by classes and arrays, each method proved against a specification function; the
lemmas then state what the specification promises. Where a promise fails, a lemma gives the
input and another states exactly when it holds: `LowHalfScalarDiffers` and `LowHalfScalar`,
`RejectedPacket` and `ForeignPacketsShift`, `EqualHalvesReuse` and `PairsRepeatIff`,
`NonCanonicalDecodes` and `EncodeOfDecodeIff`, `SeedDropsUnseen` and `DroppedIff`, `WalkStandsStill`
and `WalkEndsIff`, `EmptyFrameSwallows` and `DeliveredIff`, `LongPadStays` and `UnpadsPaddingIff`,
`SilentLoss` with `WholeIff` and `MarkerIff`.

Where code and comments disagree, the code is followed: the splitter's comment promises a marker on
all dropped content, but below four chunks bytes are lost without one; the chunk counter is 8 bytes
wide, not 9; the transport counter of a cipher state advances on failure, unlike section 5.1 of the
Noise specification.

`dafny verify dfyconfig.toml` checks everything.

## Model

| member | source | states |
|---|---|---|
| `Poly1305.AddBlock` | src/mbedtls_extras/poly1305.c:104-119 | The five-limb value grows by exactly the 128-bit block plus the pad bit times 2^128; no 64-bit sum overflows and the top limb stays small. |
| `Poly1305.FoldedProduct` | src/mbedtls_extras/poly1305.c:122-141 | With `rs = 5r/4` the five limb sums differ from acc * r by an exact multiple of 2^130 - 5, for every clamped r. |
| `Poly1305.MulR` | src/mbedtls_extras/poly1305.c:121-141 | Every sum fits its word and the value of the sums is congruent to acc * r modulo 2^130 - 5. |
| `Poly1305.Carry` | src/mbedtls_extras/poly1305.c:143-151 | One carry pass keeps the value exactly; the truncating casts lose nothing. |
| `Poly1305.Fold` | src/mbedtls_extras/poly1305.c:153-163 | Folding 2^130 to 5 keeps the residue and brings the top limb back to at most 4. |
| `Poly1305.Context.Process` | src/mbedtls_extras/poly1305.c:75-173 | For any number of blocks the accumulator becomes congruent to Horner evaluation of the blocks at r, top limb at most 4. |
| `Poly1305.RoundIsHornerStep` | src/mbedtls_extras/poly1305.c:103-166 | The phases of one round together are one Horner step modulo 2^130 - 5. |
| `Poly1305.HornerIsPolynomial` | src/mbedtls_extras/poly1305.c:75-173 | Horner evaluation is the polynomial c1*r^n + ... + cn*r, an independent definition. |
| `Poly1305.FinalReduce` | src/mbedtls_extras/poly1305.c:197-221 | The masked subtraction yields the low 128 bits of the residue in [0, 2^130 - 5), exactly, for every accumulator with top limb at most 4. |
| `Poly1305.ComputeMac` | src/mbedtls_extras/poly1305.c:182-237 | The 16 bytes denote (acc mod p + s) mod 2^128. |
| `Poly1305.LimbClamp` | src/mbedtls_extras/poly1305.c:261-265 | Masking four limbs is clamping the 128-bit number. |
| `Poly1305.ClampMeans` | src/mbedtls_extras/poly1305.c:261-265 | In plain arithmetic: every 32-bit part of r loses its top four bits, and all parts but the first their low two. |
| `Poly1305.BlocksInjective` | src/mbedtls_extras/poly1305.c:344-368 | No two messages have the same blocks, so the 1 byte behind a short block is where it must be. |
| `Poly1305Example.KnownTag` | src/mbedtls_extras/poly1305.c:75-368 | The tag of the example in section 2.5.2 of RFC 8439. |
| `Poly1305.Context.constructor` | src/mbedtls_extras/poly1305.c:239-244 | A zeroed context is the valid context of the zero key with nothing absorbed. |
| `Poly1305.Context.Starts` | src/mbedtls_extras/poly1305.c:255-284 | Loads the clamped r and s of the key; nothing absorbed. |
| `Poly1305.Context.Update` | src/mbedtls_extras/poly1305.c:286-342 | The bytes absorbed grow by exactly the input, whatever the cut: processed blocks followed by the queue are the message so far. |
| `Poly1305.Context.TopUp` | src/mbedtls_extras/poly1305.c:297-324 | A partly filled queue takes bytes first and is processed as one block when full. |
| `Poly1305.Context.WholeBlocks` | src/mbedtls_extras/poly1305.c:326-333 | Whole blocks go straight from the input; nothing is pending afterwards but the remainder. |
| `Poly1305.Context.StoreTail` | src/mbedtls_extras/poly1305.c:335-339 | Fewer than 16 bytes go to the queue and stay pending. |
| `Poly1305.RepresentsBlocks` | src/mbedtls_extras/poly1305.c:286-342 | Processing queue and whole blocks extends the evaluated message by exactly those bytes. |
| `Poly1305.RepresentsWhole` | src/mbedtls_extras/poly1305.c:344-368 | After the padded tail the accumulator is the polynomial of the whole message, with the 1 byte behind the last one. |
| `Poly1305.Context.Finish` | src/mbedtls_extras/poly1305.c:344-368 | The output is the tag of everything absorbed: ((polynomial at r mod 2^130 - 5) + s) mod 2^128. |
| `ChaCha20.QuarterRoundInPlace` | src/mbedtls_extras/chacha20.c:60-85 | The in-place quarter round on four distinct indices is the quarter round of the four words; the others stay. |
| `ChaCha20.QuarterRoundInverse` | src/mbedtls_extras/chacha20.c:60-85 | The quarter round is a bijection: an explicit inverse undoes it for all words. |
| `ChaCha20.InnerBlock` | src/mbedtls_extras/chacha20.c:95-106 | The eight in-place quarter rounds are one double round. |
| `ChaCha20.InnerBlockIsDoubleRound` | src/mbedtls_extras/chacha20.c:95-106 | The fixed index pattern is a column round, a row shift, a column round and the shift back. |
| `ChaCha20.RoundsInverse` | src/mbedtls_extras/chacha20.c:114-152 | An explicit inverse undoes any number of double rounds. |
| `ChaCha20.BlockUndone` | src/mbedtls_extras/chacha20.c:114-152 | For every state: its words subtracted from the words of its block, and ten double rounds undone, give the state back. |
| `ChaCha20.InitialStateSpells` | src/mbedtls_extras/chacha20.c:172-218 | The sixteen words serialised spell "expand 32-byte k", the key, the counter and the nonce. |
| `ChaCha20.StreamBlock` | src/mbedtls_extras/chacha20.c:220-278 | The n-th block of the stream is the block whose counter is n further, modulo 2^32. |
| `ChaCha20Words.WordXor` | src/mbedtls_extras/chacha20.c:60-85 | The xor of the model is the xor of 32-bit machine words. |
| `ChaCha20Words.WordAdd` | src/mbedtls_extras/chacha20.c:60-85 | The sum modulo 2^32 is the sum of machine words, proved through half adders in every place. |
| `ChaCha20Words.QuarterWords` | src/mbedtls_extras/chacha20.c:60-85 | The quarter round is the one RFC 8439 writes with machine words: add, xor, rotate by 16, 12, 8 and 7. |
| `ChaCha20Words.DoubleWords` | src/mbedtls_extras/chacha20.c:95-106 | A double round of the model is a double round of machine words. |
| `ChaCha20Words.KnownAnswer` | src/mbedtls_extras/chacha20.c:114-218 | The sixteen words of the block in section 2.3.2 of RFC 8439. |
| `ChaCha20.RoundsInjective` | src/mbedtls_extras/chacha20.c:114-152 | Any number of double rounds keeps different states different. |
| `ChaCha20.BlockInto` | src/mbedtls_extras/chacha20.c:114-152 | Writes the block of the state, the one `BlockUndone` and `KnownAnswer` fix, and leaves the state as it was. |
| `ChaCha20.Context.SetKey` | src/mbedtls_extras/chacha20.c:172-195 | Installs constants and key words and nothing else. |
| `ChaCha20.Context.Starts` | src/mbedtls_extras/chacha20.c:197-218 | The stream restarts at the given counter and nonce with no keystream left over. |
| `ChaCha20.Context.UseLeftover` | src/mbedtls_extras/chacha20.c:232-240 | Leftover keystream continues the stream at the current position. |
| `ChaCha20.Context.CryptBlock` | src/mbedtls_extras/chacha20.c:242-275 | One generated block continues the stream; the counter wraps at 2^32. |
| `ChaCha20.Context.Update` | src/mbedtls_extras/chacha20.c:220-278 | After any earlier calls the output is the input xored with the keystream from the current position; in-place use included. |
| `ChaCha20.CryptAppend` | src/mbedtls_extras/chacha20.c:220-278 | Crypting a + b is crypting a, then b from the later position: the cut does not matter. |
| `ChaCha20.CryptInvolution` | src/mbedtls_extras/chacha20.c:220-278 | Two runs from the same position give the data back. |
| `ChaChaPoly.OpenIffSealed` | src/mbedtls_extras/chachapoly.c:302-357 | A ciphertext and tag open to a plaintext exactly when sealing that plaintext gives them. |
| `ChaChaPoly.Context.OneTimeKey` | src/mbedtls_extras/chachapoly.c:128-141 | The one-time key is the first half of keystream block 0. |
| `ChaChaPoly.Context.Starts` | src/mbedtls_extras/chachapoly.c:119-158 | Both primitives are keyed for a new message; text will use block counters from 1 on. |
| `ChaChaPoly.SecondBlockOn` | src/mbedtls_extras/chachapoly.c:125-158 | Continuing after block 0 is crypting from counter 1. |
| `ChaChaPoly.KeyThenText` | src/mbedtls_extras/chachapoly.c:119-158 | One keystream from counter 0 on: its bytes 0 to 31 are the one-time key and its bytes from 64 on crypt the text. |
| `ChaChaPoly.Context.UpdateAad` | src/mbedtls_extras/chachapoly.c:160-174 | In the AAD state any split appends to the same additional data; in other states the call fails and changes nothing. |
| `ChaChaPoly.Context.Pad` | src/mbedtls_extras/chachapoly.c:45-79 | Exactly the zero bytes up to the next 16-byte boundary are absorbed. |
| `ChaChaPoly.Context.Update` | src/mbedtls_extras/chachapoly.c:176-225 | Any split gives the bytes of one call, feeds the ciphertext side to the MAC, and fails outside the AAD and text states. |
| `ChaChaPoly.LengthBlock` | src/mbedtls_extras/chachapoly.c:253-262 | Counters kept modulo 2^64 still complete the MAC data of section 2.8 of RFC 8439. |
| `ChaChaPoly.PadIsZeros` | src/mbedtls_extras/chachapoly.c:45-79 | A pad has fewer than 16 bytes, all of them 0, and fills up to a multiple of 16. |
| `ChaChaPoly.MacDataIsAuthenticated` | src/mbedtls_extras/chachapoly.c:227-267 | Byte by byte: additional data, zeros up to the boundary, ciphertext, zeros up to the boundary, and the two lengths as 64-bit little-endian numbers. |
| `ChaChaPoly.AuthenticatedUnique` | src/mbedtls_extras/chachapoly.c:227-267 | That description has exactly one solution. |
| `ChaChaPoly.Context.Finish` | src/mbedtls_extras/chachapoly.c:227-267 | The tag is the one of data that is, byte by byte, aad, zeros, ciphertext, zeros and the two 64-bit lengths, under any earlier splits; a second finish is the tag with the lengths absorbed once more; in the initial state it fails. |
| `ChaChaPoly.Context.EncryptAndTag` | src/mbedtls_extras/chachapoly.c:302-321 | Output and tag are the sealed form of the plaintext. |
| `ChaChaPoly.Context.AuthDecrypt` | src/mbedtls_extras/chachapoly.c:323-357 | Succeeds exactly when the tag opens the ciphertext, with that plaintext; otherwise the output is all zeros. |
| `Ed25519Field.Car` | src/bitchat/ed25519.h:55-62 | One carry pass leaves the base-2^16 digits of the value with 38 times its part above 2^256 added to limb 0, without overflow. |
| `Ed25519Field.CarriedVal` | src/bitchat/ed25519.h:55-62 | That closed form keeps the value modulo 2^255 - 19. |
| `Ed25519Field.CarriedRange` | src/bitchat/ed25519.h:55-62 | Only limb 0 can leave [0, 2^16), and by exactly 38 times the folded part. |
| `Ed25519Field.A` | src/bitchat/ed25519.h:113-115 | Limbwise sum without overflow; the value is the sum, also when arrays coincide. |
| `Ed25519Field.Z` | src/bitchat/ed25519.h:117-119 | Limbwise difference without overflow; the value is the difference, also when arrays coincide. |
| `Ed25519Field.Multiply` | src/bitchat/ed25519.h:122-125 | The 31 limb sums denote the product of the two values and are at most 2^56 in magnitude. |
| `Ed25519Field.Fold` | src/bitchat/ed25519.h:126-127 | Folding 2^256 to 38 keeps the residue inside 62 bits. |
| `Ed25519Field.TwoCarries` | src/bitchat/ed25519.h:128 | Two carry passes return any product-sized value to limbs in [0, 2^16), limb 0 within 38 of it. |
| `Ed25519Field.M` | src/bitchat/ed25519.h:121-129 | For limbs below 2^26 in magnitude: no int64 overflow, a reduced result congruent to a * b. |
| `Ed25519Curve.Inv25519` | src/bitchat/ed25519.h:133-141 | The chain computes a^(p - 2) for every bounded a. |
| `Ed25519Curve.Pow2523` | src/bitchat/ed25519.h:143-151 | The chain computes a^((p - 5) / 8) for every bounded a. |
| `Ed25519Curve.Constants` | src/bitchat/ed25519.h:21-32 | 121666 d = -121665, D2 = 2d and I^2 = -1 modulo p. |
| `Ed25519Curve.SumLaw` | src/bitchat/ed25519.h:159-179 | The formula satisfies X*Y = Z*T and the cross-multiplied twisted Edwards addition law. |
| `Ed25519Curve.PtAdd` | src/bitchat/ed25519.h:159-179 | Every product meets its limb bound, all coordinates come out reduced, and the point is the unified sum, doubling included. |
| `Ed25519Group.SumOnCurve` | src/bitchat/ed25519.h:159-179 | The sum of any two points on the curve is on the curve. |
| `Ed25519Group.SumWithNegated` | src/bitchat/ed25519.h:159-179 | A curve point plus its negative is a multiple of the identity. |
| `Ed25519Point.Cswap` | src/bitchat/ed25519.h:155-157 | Masked exchange of all four coordinates, or none. |
| `Ed25519Point.LadderStep` | src/bitchat/ed25519.h:231-235 | One bit: the point selected by the bit is added to both. |
| `Ed25519Point.ScalarMult` | src/bitchat/ed25519.h:225-237 | All 512 additions meet their limb bounds and the result is the ladder point modulo p. |
| `Ed25519Group.BitOfNumber` | src/bitchat/ed25519.h:231 | The extracted bit is bit i of the little-endian scalar. |
| `Ed25519Group.LadderMultiplies` | src/bitchat/ed25519.h:225-237 | Wherever the addition formula adds multiples of q, the two ladder points stand for n*q and (n+1)*q, n being the bits read. |
| `Ed25519Group.ScalarMultiple` | src/bitchat/ed25519.h:225-237 | So the final point stands for the scalar times q. |
| `Ed25519Group.LadderAddsCopies` | src/bitchat/ed25519.h:225-237 | With nothing assumed: the final point is what the addition formula makes of exactly as many copies of q as the scalar says, in some bracketing. |
| `Ed25519Group.LadderOnCurve` | src/bitchat/ed25519.h:225-237 | From a curve point no scalar leads off the curve. |
| `Ed25519Point.Ratio` | src/bitchat/ed25519.h:194-197 | u = y^2 - 1 and v = 1 + d*y^2 within bounds. |
| `Ed25519Point.Candidate` | src/bitchat/ed25519.h:199-209 | The chain is (u*v^3) * (u*v^7)^((p - 5) / 8), the candidate of section 5.1.3 of RFC 8032. |
| `Ed25519Point.FindRoot` | src/bitchat/ed25519.h:199-217 | Succeeds exactly when the candidate squares to u/v or -u/v, and then returns a root, which is 0 when u is. |
| `Ed25519Point.RootFoundIfAny` | src/bitchat/ed25519.h:199-217 | If any x has x^2 * v = u with v not 0, decoding finds a root. |
| `Ed25519Point.UnpackNeg` | src/bitchat/ed25519.h:190-223 | Fails exactly when no attempt yields a root; otherwise the point is on the curve with the packed y and Z = 1, and x is 0 if y^2 = 1 and else nonzero, of the parity opposite to the sign bit. |
| `Ed25519Point.PackPoint` | src/bitchat/ed25519.h:181-188 | Writes the canonical y / Z in 255 bits and the parity of x / Z in the top bit. |
| `Ed25519Point.EncodeOfDecodeIff` | src/bitchat/ed25519.h:181-223 | Decoding, negating and encoding returns the bytes exactly when y is below p and the sign bit is clear where y^2 = 1: a test on the bytes. |
| `Ed25519Point.NonCanonicalDecodes` | src/bitchat/ed25519.h:181-223 | Both conditions fail for some decodable bytes: y = 1 with the sign bit set, and y = p + 1. |
| `Ed25519Point.DecodableIff` | src/bitchat/ed25519.h:190-217 | Bytes decode exactly when some point of the curve has their y. |
| `Ed25519Point.InversionInverts` | src/bitchat/ed25519.h:133-141 | The inversion chain yields the inverse of every nonzero element. |
| `Ed25519Point.PackedProjective` | src/bitchat/ed25519.h:181-188 | All projective coordinates of a point are encoded alike, with any inverses of their Z. |
| `PrimeField.Fermat` | src/bitchat/ed25519.h:133-151 | a^(p - 1) = 1 for every nonzero residue of a prime p, on which inversion and root chains rest. |
| `PrimeField.RootOfOne` | src/bitchat/ed25519.h:143-151 | Only 1 and -1 square to 1 modulo a prime. |
| `Ed25519Pack.Sel` | src/bitchat/ed25519.h:64-71 | The xor mask exchanges the two elements for 1 and keeps them for 0. |
| `Ed25519Pack.ThreeCarries` | src/bitchat/ed25519.h:76 | Three carry passes leave sixteen digits in [0, 2^16) of a congruent number. |
| `Ed25519Pack.TrySubtract` | src/bitchat/ed25519.h:78-85 | The borrow chain computes t - p, and the top borrow tells whether t < p. |
| `Ed25519Pack.Canonical` | src/bitchat/ed25519.h:74-87 | Two conditional subtractions end in the representative in [0, p). |
| `Ed25519Pack.Pack25519` | src/bitchat/ed25519.h:73-92 | The 32 bytes denote the value modulo p, for all limbs below 2^26 in magnitude. |
| `Ed25519Pack.Unpack25519` | src/bitchat/ed25519.h:94-98 | Digits of the 255 low bits of the bytes. |
| `Ed25519Pack.UnpackOfPack` | src/bitchat/ed25519.h:73-98 | Unpacking a packed element gives its canonical representative. |
| `Ed25519Pack.Par25519` | src/bitchat/ed25519.h:100-104 | The parity of the canonical representative. |
| `Ed25519Pack.Neq25519` | src/bitchat/ed25519.h:106-111 | Decides inequality modulo p. |
| `Ed25519Scalar.Eliminate` | src/bitchat/ed25519.h:252-259 | Subtracts a multiple of L that cancels digit i and leaves signed bytes in the window. |
| `Ed25519Scalar.EliminateAll` | src/bitchat/ed25519.h:251-260 | Thirty-two near-byte digits remain, congruent modulo L, with no int64 overflow. |
| `Ed25519Scalar.RemainderRange` | src/bitchat/ed25519.h:261-266 | Digit 31 over 16 is the quotient up to one: the remainder lies strictly between -L and L. |
| `Ed25519Scalar.QuotientPass` | src/bitchat/ed25519.h:261-266 | The digits and the carry denote the value minus q*L exactly. |
| `Ed25519Scalar.AddBack` | src/bitchat/ed25519.h:267-268 | L is added once exactly after a negative remainder. |
| `Ed25519Scalar.WriteOut` | src/bitchat/ed25519.h:269-272 | The bytes written are the digits normalised modulo 2^256. |
| `Ed25519Scalar.Reduce` | src/bitchat/ed25519.h:250-273 | For 64 digits in [0, 2^22] the 32 bytes denote the value modulo L, below L. |
| `Ed25519Scalar.Accumulate` | src/bitchat/ed25519.h:342-346 | The digit sums denote r + h*a for the low halves and stay within 2^22. |
| `Ed25519Scalar.SignatureScalar` | src/bitchat/ed25519.h:341-347 | S is (r + (low 32 hash bytes) * a) mod L. |
| `Ed25519Scalar.LowHalfScalar` | src/bitchat/ed25519.h:341-381 | S is the scalar verification works with exactly when the high 32 hash bytes times a are a multiple of L. |
| `Ed25519Scalar.LowHalfScalarDiffers` | src/bitchat/ed25519.h:341-381 | A hash and a clamped secret for which it is not. |
| `Noise.DecryptsWhatWasEncrypted` | src/bitchat/noise_state.h:143-212 | Equal keyed states: the receiver recovers the plaintext and both end in the same state. |
| `Noise.InitiatorMsg2` | src/bitchat/noise_handshake.cpp:100-161 | The initiator retraces message 2 and learns the responder's static key. |
| `Noise.ResponderMsg3` | src/bitchat/noise_handshake.cpp:167-200 | The responder retraces message 3 and learns the initiator's static key. |
| `Noise.HonestRunAgrees` | src/bitchat/noise_handshake.cpp:28-200 | Every honest run that ends leaves both in transport with equal ck and h, mirrored keys at counter 0 and each other's identity. |
| `Noise.HonestRunEnds` | src/bitchat/noise_handshake.cpp:28-200 | An honest run ends exactly when its three key agreements succeed. |
| `Noise.RunExplained` | src/bitchat/noise_handshake.cpp:28-200 | The closed form of every honest run over the primitives alone: ck is the derivation of ee, then es, then se from the protocol name; h hashes the name, both ephemeral keys and both encrypted static keys in turn; each static key is sealed under the key, hash and zero nonce of its moment. |
| `Noise.ChainingKeyBinds` | src/bitchat/noise_state.h:121-139 | Two runs with one final ck have equal ee, es and se, or a named step of theirs is a collision of the key derivation. |
| `Noise.HashBinds` | src/bitchat/noise_state.h:109-118 | Two runs with one final h have equal ephemeral keys and equal encrypted static keys, or a named step of theirs is a collision of the hash. |
| `Noise.NameSpelled` | src/bitchat/noise_state.h:44 | The 32 bytes of the protocol name. |
| `Noise.NonceLayout` | src/bitchat/noise_state.h:70-73 | A nonce is four zero bytes and the counter, little-endian in eight. |
| `Noise.DecryptOfEncrypt` | src/bitchat/noise_state.h:238-283 | A packet opens under the same key and counter, and both counters advance alike. |
| `Noise.TransportDelivers` | src/bitchat/noise_handshake.cpp:204-218 | In every interleaving of sends, in-order deliveries and foreign packets too short for a tag, after any honest handshake, each end has received exactly what was delivered of what the other sent. |
| `Noise.ForeignPacketsShift` | src/bitchat/noise_state.h:260-283 | In every run, foreign packets included: the receive counter counts all packets with room for a tag; the k-th honest packet opens to its plaintext exactly when sealing under the shifted counter gives the same bytes; the receiver is back in step exactly when the foreign packets number a multiple of 2^64. |
| `Noise.OpenedIff` | src/bitchat/noise_state.h:238-283 | What a packet opens to under a shifted counter, exactly. |
| `Noise.RejectedPacket` | src/bitchat/noise_state.h:260-283 | For every receiver a packet it rejects that still moves its counter. |
| `Noise.KeysAreHalves` | src/bitchat/noise_state.h:215-235 | The two transport keys are the halves of one key derivation from the agreed chaining key. |
| `Noise.PairsRepeatIff` | src/bitchat/noise_state.h:238-257 | Two encryptions of a session, in either direction, share a (key, nonce) pair exactly when their numbers agree modulo 2^64 and they are in one direction or the two keys are equal. |
| `Noise.PairsAreFresh` | src/bitchat/noise_state.h:238-257 | Below 2^64 messages a direction and with different halves no pair is used twice. |
| `Noise.EqualHalvesReuse` | src/bitchat/noise_state.h:215-257 | A key derivation with equal halves meets every law asked of it, and the first packets of the two directions share their pair. |
| `NoiseState.AeadEncrypt` | src/bitchat/noise_state.h:238-257 | The streaming AEAD context computes the sealed packet. |
| `NoiseState.AeadDecrypt` | src/bitchat/noise_state.h:260-283 | The streaming AEAD context opens exactly what sealing produced. |
| `NoiseState.CipherState.EncryptPacket` | src/bitchat/noise_state.h:238-257 | Packet and counter are those of the protocol function; the counter wraps at 2^64. |
| `NoiseState.CipherState.DecryptPacket` | src/bitchat/noise_state.h:260-283 | Result and counter are those of the protocol function, failures included. |
| `NoiseState.SymmetricState.MixHashWith` | src/bitchat/noise_state.h:109-118 | h alone changes, to the hash of h and the data. |
| `NoiseState.SymmetricState.MixKeyWith` | src/bitchat/noise_state.h:121-139 | ck and k change together and n restarts, or nothing changes on failure. |
| `NoiseState.SymmetricState.Seal` | src/bitchat/noise_state.h:143-174 | EncryptAndHash, with and without a key. |
| `NoiseState.SymmetricState.Open` | src/bitchat/noise_state.h:178-212 | DecryptAndHash, with and without a key; a failed tag still moves the counter. |
| `NoiseState.SymmetricState.SplitInto` | src/bitchat/noise_state.h:215-235 | Two cipher states with the split keys at counter 0. |
| `NoiseState.HandshakeState.constructor` | src/bitchat/noise_handshake.cpp:10-22 | The initial state of a role, with the ephemeral key as an input. |
| `NoiseState.HandshakeState.SendMsg1` | src/bitchat/noise_handshake.cpp:28-41 | State and message are those of the protocol step, or a failure that leaves the phase or marks it failed. |
| `NoiseState.HandshakeState.ReadMsg1SendMsg2` | src/bitchat/noise_handshake.cpp:47-94 | The same for the responder's first step, every early return included. |
| `NoiseState.HandshakeState.ReadMsg2SendMsg3` | src/bitchat/noise_handshake.cpp:100-161 | The same for the initiator's second step. |
| `NoiseState.HandshakeState.ReadMsg3Finish` | src/bitchat/noise_handshake.cpp:167-200 | The same for the responder's last step. |
| `NoiseState.HandshakeState.EncryptMessage` | src/bitchat/noise_handshake.cpp:204-210 | Refused outside transport; otherwise the send state's packet. |
| `NoiseState.HandshakeState.DecryptMessage` | src/bitchat/noise_handshake.cpp:212-218 | Refused outside transport; otherwise the receive state's result. |
| `RxRing.StepKeepsInv` | src/bitchat/bitchat_ble.cpp:40-52 | Each atomic step of producer or consumer keeps the ring equal to the accepted packets not yet consumed. |
| `RxRing.RunKeepsInv` | src/bitchat/bitchat_ble.cpp:166-174 | So does every interleaving. |
| `RxRing.EveryInterleaving` | src/bitchat/bitchat_ble.cpp:40-174 | Consumed packets are a prefix of the accepted ones in order; at most three wait; the slot being processed is never the one being written. |
| `RxRing.ArrivalAcceptedIff` | src/bitchat/bitchat_ble.cpp:40-52 | A packet is turned away exactly when empty, over-long, or three packets wait. |
| `Fragments.StoreHolds` | src/bitchat/bitchat_ble.cpp:1272-1286 | Storing a chunk fills its own staging area and no other. |
| `Fragments.AssembleIsFlatten` | src/bitchat/bitchat_ble.cpp:1288-1301 | A slot holding every chunk assembles to the chunks in index order. |
| `Fragments.OwnPiece` | src/bitchat/bitchat_ble.cpp:1218-1318 | A further piece is stored; the last missing one brings out the whole message and frees the slot. |
| `Fragments.ForeignPiece` | src/bitchat/bitchat_ble.cpp:1218-1318 | Fragments of other messages leave an unexpired slot alone. |
| `Fragments.FirstPiece` | src/bitchat/bitchat_ble.cpp:1235-1270 | The first piece opens a slot whenever one is free or expired. |
| `Fragments.NoSlotFree` | src/bitchat/bitchat_ble.cpp:1235-1270 | While four other messages are being collected a piece of a fifth is dropped and changes nothing. |
| `Fragments.ParsesIff` | src/bitchat/bitchat_ble.cpp:1218-1234 | A fragment is taken exactly when it has 1 to 256 bytes behind its header and an index below a total of at most 8. |
| `Fragments.ExpiredIff` | src/bitchat/bitchat_ble.cpp:1245-1252 | A slot expires exactly when more than 10000 ms have passed, wherever the clock wraps. |
| `Fragments.FeedTracks` | src/bitchat/bitchat_ble.cpp:1218-1318 | While pieces are missing nothing of the message comes out and exactly the new indices are gained. |
| `Fragments.Reassembles` | src/bitchat/bitchat_ble.cpp:1218-1318 | Any order, duplicates and foreign fragments: exactly one packet, the chunks in index order, at the last missing piece. |
| `Fragments.ReassemblesOnce` | src/bitchat/bitchat_ble.cpp:1218-1318 | The same over one arrival sequence: the last arrival and no earlier piece brings the message out. |
| `PacketEngine.Unpad` | src/bitchat/bitchat_ble.cpp:94-101 | The length without valid padding; anything else counts as data. |
| `PacketEngine.StripsIff` | src/bitchat/bitchat_ble.cpp:94-101 | What unpadding takes off is exactly a run of 1 to 255 bytes that all spell its length. |
| `PacketEngine.ParsesLayout` | src/bitchat/bitchat_ble.cpp:774-837 | For every packet that fits, laid out in version 1 or 2 with or without a recipient, the header parser returns exactly its kind, TTL and payload, whatever follows the payload. |
| `PacketEngine.HeaderDroppedIff` | src/bitchat/bitchat_ble.cpp:776-835 | It returns nothing exactly when the packet is shorter than header and sender, or its announced payload ends behind it as a signed 32-bit number. |
| `PacketEngine.ParseOfLaid` | src/bitchat/bitchat_ble.cpp:1220-1230 | A fragment laid out with a big-endian id, index and total parses back to itself. |
| `PacketEngine.TruncatedIff` | src/bitchat/bitchat_ble.cpp:832-835 | A payload is dropped as truncated exactly when it ends behind the packet and the 32-bit sum does not wrap around. |
| `PacketEngine.HandleBytes` | src/bitchat/bitchat_ble.cpp:1218-1318 | Staged bytes plus the packet that comes out are at most the staged bytes before plus the chunk. |
| `PacketEngine.Engine.Enqueue` | src/bitchat/bitchat_ble.cpp:1306-1314 | The packet goes behind the waiting ones, or nothing changes when it does not fit. |
| `PacketEngine.Engine.ChooseSlot` | src/bitchat/bitchat_ble.cpp:1235-1261 | The two loops find the slot the specification names and expire the same slots. |
| `PacketEngine.Engine.Concatenate` | src/bitchat/bitchat_ble.cpp:1291-1301 | The loop yields the chunks in index order. |
| `PacketEngine.Engine.HandleFragment` | src/bitchat/bitchat_ble.cpp:1218-1318 | Slots and ring become those of the specification; the weight grows by at most the chunk. |
| `PacketEngine.Engine.Fill` | src/bitchat/bitchat_ble.cpp:1263-1317 | Opening, storing and closing a slot is the specification's step. |
| `PacketEngine.Engine.ProcessIncoming` | src/bitchat/bitchat_ble.cpp:774-915 | Exactly the admitted, well-parsed fragments are handled, as the specification says, and nothing else touches ring or slots; the weight grows by less than the packet's length. |
| `PacketEngine.Engine.Drain` | src/bitchat/bitchat_ble.cpp:162-174 | The drain loop ends from every ring and reassembly state and leaves the ring empty, though it feeds itself. |
| `PacketEngine.Engine.constructor` | src/bitchat/bitchat_ble.h:71-160 | An engine starts valid, with an empty ring and four slots, none of them active. |
| `PacketEngine.Engine.ReceiveAll` | src/bitchat/bitchat_ble.cpp:1218-1318 | Any arrival sequence leaves the slots of the specification and a ring that got every completed packet that fits while fewer than three wait. |
| `PacketEngine.OneRingEntry` | src/bitchat/bitchat_ble.cpp:1218-1318 | Arrivals that reassemble a message add exactly one ring entry for it, the chunks in index order, given room; no earlier piece offers one. |
| `Dedup.DedupRing.IsDuplicate` | src/bridge/bridge_manager.cpp:331-340 | True exactly when one of the last 64 recordings has this hash and was made d milliseconds of the wrapping clock before now, d below the window. |
| `Dedup.AgeIsElapsed` | src/bridge/bridge_manager.cpp:331-340 | The unsigned difference of two readings is the time elapsed, for every reading and every d below 2^32. |
| `Dedup.HitIff` | src/bridge/bridge_manager.cpp:331-340 | The code's test holds exactly when the entry has the hash and d milliseconds lead from its time to now for some d below the window. |
| `Dedup.DedupRing.Record` | src/bridge/bridge_manager.cpp:342-346 | The log grows by one entry; the ring stays its last 64. |
| `Dedup.DedupRing.Gate` | src/bridge/bridge_manager.cpp:128-134 | A duplicate is dropped and changes nothing, anything else is recorded and passed. |
| `Dedup.RunSeparated` | src/bridge/bridge_manager.cpp:184-190 | In every run no passed message repeats a fresh one among its last 64 recordings. |
| `Dedup.SameHashFarApart` | src/bridge/bridge_manager.cpp:128-346 | Two passed messages with one hash, the second d milliseconds after the first with d below the window, have at least 64 recordings between them, under a wrapping clock. |
| `Dedup.BridgeWindow` | src/bridge/bridge_manager.cpp:128-346 | The same for the bridge: 60000 ms and 64 recordings. |
| `Dedup.DroppedIff` | src/bridge/bridge_manager.cpp:331-346 | A drop is caused by a fresh recording among the last 64, or by a seed entry: hash 0 in the first window while a seed is left. |
| `Dedup.SeedDropsUnseen` | src/bridge/bridge_manager.cpp:331-346 | A never seen message with hash 0 at time 0 is dropped by a ring nothing was recorded in. |
| `Gossip.RelayHash` | src/bitchat/bitchat_ble.cpp:1324-1331 | The loop computes the 32-bit hash of the packet without its TTL byte. |
| `Gossip.HashIgnoresTtl` | src/bitchat/bitchat_ble.cpp:1324-1331 | Copies that differ only in TTL hash alike. |
| `Gossip.HashIsBase33` | src/bitchat/bitchat_ble.cpp:1324-1331 | The hash is the packet without its TTL byte, read in base 33 behind 5381, modulo 2^32. |
| `Gossip.HashSeesEveryByte` | src/bitchat/bitchat_ble.cpp:1324-1331 | Changing any one byte but the TTL changes the hash. |
| `Gossip.UnpadsPaddingIff` | src/bitchat/bitchat_ble.cpp:81-101 | Unpadding undoes padding exactly when the pad has 1 to 255 bytes, or is empty and the data does not look padded. |
| `Gossip.LongPadStays` | src/bitchat/bitchat_ble.cpp:81-101 | 600 bytes padded to 1024 keep 256 bytes of their pad. |
| `Gossip.PaddedLength` | src/bitchat/bitchat_ble.cpp:81-92 | Up to 2048 bytes are padded to the least of 256, 512, 1024 and 2048 that holds them. |
| `Gossip.CopiesReach` | src/bitchat/bitchat_ble.cpp:1366-1377 | A connection gets a copy exactly when an active peer is on it and the packet did not come from it. |
| `Gossip.CopiesCount` | src/bitchat/bitchat_ble.cpp:1366-1377 | As many copies leave as there are such peers. |
| `Gossip.RelayNode.RelayPacket` | src/bitchat/bitchat_ble.cpp:1353-1377 | Nothing for a short or recent packet, else one decremented copy to each other active peer, recorded once. |
| `Gossip.RelayNode.RelayGate` | src/bitchat/bitchat_ble.cpp:911-914 | Announces and messages with TTL above 1 are passed on, nothing else is; every copy has TTL one less, at least 1, and goes to another connection; the TTLs sent are those of the network step. |
| `Gossip.RelayedOnce` | src/bitchat/bitchat_ble.cpp:1333-1362 | A packet relayed less than 30000 ms ago is not relayed again, at any TTL, while its entry is among the last 64. |
| `Gossip.ForwardedCosts` | src/bitchat/bitchat_ble.cpp:1353-1377 | The copies sent weigh less than the one received, at weight (F+1)^TTL. |
| `Gossip.GossipQuiesces` | src/bitchat/bitchat_ble.cpp:911-1377 | Any run makes at most the sum of (F+1)^TTL deliveries and fewer transmissions, in every topology and dedup state. |
| `MeshProto.EncodeVarint` | src/meshtastic/mesh_proto.h:28-36 | The loop writes the base-128 form of the value. |
| `MeshProto.DecodeVarint` | src/meshtastic/mesh_proto.h:38-47 | The loop computes the value and byte count, or fails on five continued bytes or the end. |
| `MeshProto.EncodeTag` | src/meshtastic/mesh_proto.h:51-53 | The tag keeps the field number modulo 2^29 and the wire type. |
| `MeshProto.VarintRoundTrip` | src/meshtastic/mesh_proto.h:28-47 | Every uint32 decodes from its encoding, whatever follows, consuming exactly its bytes. |
| `MeshProto.DecodesIff` | src/meshtastic/mesh_proto.h:38-47 | On every input: n bytes are taken exactly when the first n are a varint of at most five, and the value is the number they denote modulo 2^32. |
| `MeshProto.VarintDenotes` | src/meshtastic/mesh_proto.h:28-36 | The bytes written denote the value, seven bits each, and all but the last carry the continuation bit. |
| `MeshProto.EncodeFixed32` | src/meshtastic/mesh_proto.h:55-59 | Writes the field of that number and word. |
| `MeshProto.EncodeVarintField` | src/meshtastic/mesh_proto.h:61-65 | Writes the field of that number and value. |
| `MeshProto.EncodeBytesField` | src/meshtastic/mesh_proto.h:67-72 | Writes the field of that number and bytes. |
| `MeshProto.EncodeData` | src/meshtastic/mesh_proto.h:77-82 | Port and payload fields, in order. |
| `MeshProto.EncodeMeshPacket` | src/meshtastic/mesh_proto.h:90-114 | The packet's fields in order, from and channel left out when 0. |
| `MeshProto.DataOnTheWire` | src/meshtastic/mesh_proto.h:77-82 | The bytes of a Data message, written out. |
| `MeshProto.PacketOnTheWire` | src/meshtastic/mesh_proto.h:90-114 | The bytes of a MeshPacket, written out tag by tag. |
| `MeshProto.EncodeToRadioPacket` | src/meshtastic/mesh_proto.h:154-161 | The packet wrapped as field 1. |
| `MeshProto.ToRadioFields` | src/meshtastic/mesh_proto.h:154-161 | Field 1 gives the packet back, and the parser of the radio's stream sees no message in this form. |
| `MeshProto.DecodeField` | src/meshtastic/mesh_proto.h:195-231 | The field at the front and the bytes it takes, or failure. |
| `MeshProto.FieldRoundTrip` | src/meshtastic/mesh_proto.h:51-231 | `decode_field` consumes exactly what one encoder wrote and returns the field. |
| `MeshProto.FieldsRoundTrip` | src/meshtastic/mesh_proto.h:195-231 | Walking any sequence of encoded fields gives the fields. |
| `MeshProto.ConsumedIff` | src/meshtastic/mesh_proto.h:208-218 | In 32-bit arithmetic the returned count is the field's size exactly for decodable fields, negative otherwise, unless the length leads back into the field; then it is 0 to 9. |
| `MeshProto.StallsIff` | src/meshtastic/mesh_proto.h:211-218 | The count is 0 exactly when the field is length-delimited and its length is 2^32 less the size of its own header. |
| `MeshProto.WalkEndsIff` | src/meshtastic/mesh_proto.h:387-397 | The walk over a buffer ends exactly when it never reaches such a field, and then within as many steps as bytes and one. |
| `MeshProto.WalkVisitsFields` | src/meshtastic/mesh_proto.h:387-397 | Where no length leads back, the walk stands before each field of the specification in turn. |
| `MeshProto.WalkEndsBehindFields` | src/meshtastic/mesh_proto.h:387-397 | And it ends behind the last of them. |
| `MeshProto.WalkStandsStill` | src/meshtastic/mesh_proto.h:211-218 | A six-byte field whose count is 0, so that the walk would not advance. |
| `MeshProto.FindData` | src/meshtastic/mesh_proto.h:382-397 | The outer walk finds the last length-delimited field of the number. |
| `MeshProto.ReadPacket` | src/meshtastic/mesh_proto.h:399-422 | The header values and payload of the packet walk. |
| `MeshProto.ReadData` | src/meshtastic/mesh_proto.h:424-443 | The port and payload of the data walk. |
| `MeshProto.ParseFromRadio` | src/meshtastic/mesh_proto.h:379-455 | The three walks together are the parser of the specification. |
| `MeshProto.PacketRoundTrip` | src/meshtastic/mesh_proto.h:90-422 | All header values come back; the hop limit is not taken for rx_time. |
| `MeshProto.TextRoundTrip` | src/meshtastic/mesh_proto.h:28-455 | Encoding any text of at least one byte in Data in MeshPacket in field 2 and parsing returns all values and the text, cut at 255 bytes. |
| `MeshProto.PortRoundTrip` | src/meshtastic/mesh_proto.h:379-455 | For every port the header values come back, and the payload is taken for a text exactly when the port is 1 and it is not empty. |
| `Framer.Receiver.constructor` | src/meshtastic/meshtastic_tcp.h:76-81 | A receiver waiting for a start byte. |
| `Framer.Receiver.ProcessByte` | src/meshtastic/meshtastic_tcp.cpp:251-292 | For every byte in every state the buffer index is in bounds and the step is the automaton's. |
| `Framer.Receiver.Poll` | src/meshtastic/meshtastic_tcp.cpp:70-74 | Reading available bytes delivers exactly the automaton's payloads, however reads are grouped. |
| `Framer.RunAppend` | src/meshtastic/meshtastic_tcp.cpp:251-292 | A run over a + b is a run over a continued over b. |
| `Framer.FrameBytes` | src/meshtastic/meshtastic_tcp.cpp:241-249 | A frame is 0x94, 0xC3, the length big-endian and the payload. |
| `Framer.DeliveredIff` | src/meshtastic/meshtastic_tcp.cpp:241-292 | A frame delivers its payload exactly when that has 1 to 512 bytes. |
| `Framer.EmptyFrameSwallows` | src/meshtastic/meshtastic_tcp.cpp:278-290 | An empty frame takes the byte behind it, so every frame right behind it is lost. |
| `Framer.StreamDelivered` | src/meshtastic/meshtastic_tcp.cpp:241-292 | Any list of framed payloads with 0x94-free junk before, between and after is delivered exactly and in order. |
| `Framer.Resynchronises` | src/meshtastic/meshtastic_tcp.cpp:251-292 | After any past, 515 bytes without 0x94 restore exact delivery. |
| `Framer.DoubledStartLosesFrame` | src/meshtastic/meshtastic_tcp.cpp:260-266 | A repeated start byte loses the frame it begins, whatever the payload. |
| `Splitter.NeededQuotient` | src/bridge/bridge_manager.cpp:256-258 | The clamped rounded-up quotient is the number of slices needed, at most four. |
| `Splitter.Retreat` | src/bridge/bridge_manager.cpp:268-273 | The loop stops at the last cut not on a continuation byte. |
| `Splitter.ChooseTake` | src/bridge/bridge_manager.cpp:262-284 | The size and truncation of each slice. |
| `Splitter.ChunkQueue.SplitIntoChunks` | src/bridge/bridge_manager.cpp:246-308 | Queues exactly the specified chunks in order, records the hash of each, and makes the first due at once, for every prefix and body. |
| `Splitter.HashText` | src/bridge/message.h:48-60 | The loops compute the FNV-1a hash of a text without a sender. |
| `Splitter.TextHashIsFnv` | src/bridge/message.h:48-60 | It is one hash of the text with twelve zero bytes behind it, from the FNV offset basis on. |
| `Splitter.FnvKnown` | src/bridge/message.h:48-50 | The published FNV-1a hash of "a". |
| `Splitter.FnvSeesEveryByte` | src/bridge/message.h:48-60 | Changing any one byte changes the hash. |
| `Splitter.ChunkFits` | src/bridge/bridge_manager.cpp:285-294 | Under a prefix of at most 79 bytes every chunk fits 233 bytes and the array never cuts it. |
| `Splitter.ChunkSaysItsNumber` | src/bridge/bridge_manager.cpp:285-294 | Chunk i of n reads prefix, " (i/n): " with i counted from 1, and its slice. |
| `Splitter.JoinedIsPrefix` | src/bridge/bridge_manager.cpp:260-302 | The slices concatenate to a prefix of the body, for every body. |
| `Splitter.WalkBackShort` | src/bridge/bridge_manager.cpp:268-282 | In well-formed UTF-8 the walk back gives up at most three bytes. |
| `Utf8.EncodedIsChar` | src/bridge/bridge_manager.cpp:268-282 | The well-formedness the splitter keeps is UTF-8: every character number, encoded, is one character. |
| `Utf8.CharIsEncoded` | src/bridge/bridge_manager.cpp:268-282 | And every character read is the shortest encoding of a character number. |
| `Utf8.EncodedWellFormed` | src/bridge/bridge_manager.cpp:268-282 | Encoded characters are well-formed text. |
| `Utf8.WellFormedDecodes` | src/bridge/bridge_manager.cpp:268-282 | Well-formed text is the encoding of some characters. |
| `Splitter.ChunkWellFormed` | src/bridge/bridge_manager.cpp:260-302 | Slices of a well-formed body are well-formed UTF-8, and so are chunks under a well-formed prefix. |
| `Splitter.WholeIff` | src/bridge/bridge_manager.cpp:260-302 | Everything arrives exactly when the last chunk's remainder fits a slice. |
| `Splitter.MarkerIff` | src/bridge/bridge_manager.cpp:275-289 | " ..." stands exactly on a fourth chunk after which something is missing. |
| `Splitter.WholeWhenCutsAreClean` | src/bridge/bridge_manager.cpp:246-308 | A body of at most four slices with no cut on a continuation byte arrives whole. |
| `Splitter.LossBound` | src/bridge/bridge_manager.cpp:246-308 | A well-formed body of at most four slices loses at most 3 bytes a chunk below four chunks, 16 bytes at four. |
| `Splitter.SilentLoss` | src/bridge/bridge_manager.cpp:260-302 | A body of two chunks that loses its last byte with no marker. |
| `LongMessage.PacketFitsFrame` | src/meshtastic/meshtastic_tcp.cpp:272-292 | A text packet the radio passes on always makes a frame the receiver accepts. |
| `LongMessage.SendText` | src/meshtastic/meshtastic_tcp.cpp:95-118 | Writes the frame of the text, cut at 233 bytes, in Data in MeshPacket in field 1. |
| `LongMessage.OutgoingFitsFrame` | src/meshtastic/meshtastic_tcp.cpp:95-118 | Whatever the text, that frame has 1 to 512 bytes of payload, and the payload is not one this bridge would parse as a message. |
| `LongMessage.RadioPassesOn` | src/meshtastic/meshtastic_tcp.cpp:95-118 | A radio that moves the packet from field 1 to field 2 under its own number passes on exactly the text packet. |
| `LongMessage.TextsArrive` | src/meshtastic/meshtastic_tcp.cpp:241-292 | Framed text packets, junk around them, parse back to every message in order. |
| `LongMessage.GatheredBody` | src/bridge/bridge_manager.cpp:246-308 | Chunk texts without their headers join to the kept prefix of the body, marked exactly when four chunks lost something. |
| `LongMessage.LongMessageArrives` | src/bridge/bridge_manager.cpp:246-308 | What the bridge writes for a split message is read by the radio as written; passed on from there, the stream gives back all chunks in order. |

## Left out

- I/O and libraries: Bluetooth, sockets, mDNS, storage, serial output, heap queries. The clock, the ephemeral keys and the admission of a packet are inputs.
- Noise.ChainingKeyBinds: up to a named collision, since no derivation into 32 bytes is injective.
- Noise.HashBinds: the same.
- SHA-256, SHA-512, HMAC, HKDF and X25519 are abstract functions: fixed output lengths, commuting key agreement, failures that depend on the inputs alone.
- Associativity of the Edwards addition, and a certificate that 2^255 - 19 is prime.
- Ed25519Group.LadderMultiplies: for any relation that the addition formula is additive in; `LadderAddsCopies` is the instance that needs no hypothesis, since associativity is not proved.
- Ed25519Group.ScalarMultiple: the same.
- Ed25519Point.RootFoundIfAny: takes the primality of 2^255 - 19 as its hypothesis.
- Ed25519Point.DecodableIff: the same hypothesis.
- Ed25519Point.InversionInverts: the same hypothesis.
- Signing and verification as a whole: verification does not in general accept what signing produced; `LowHalfScalar` says when the scalars agree. Hashing, `_ed_scalarbase` and the final comparison are not modelled.
- Noise.HonestRunAgrees: agreement of two ends running this code only. The messages carry no closing payload encryption, so they do not follow section 5.3 of the Noise specification.
- The memory order of the ring's atomics: steps are interleaved as if sequentially consistent, and the data writes of a slot are separate steps.
- A second producer on the ring: reassembly enqueues from the consumer, which `PacketEngine` models sequentially and `RxRing` does not include.
- Fragments.Reassembles: chunks of at most 256 bytes and messages of at most 512, as the receiver requires; the sender cuts at 356 bytes, so its long messages do not meet this.
- PacketEngine.Engine.ProcessIncoming: handlers other than the fragment handler are outside the model, since they touch neither the ring nor the slots; a peer slot and a signature check are one input.
- Signatures across relays: the TTL byte lies inside the signed bytes.
- MeshProto.DecodeField: a length in the last ten values below 2^32, which leads the code's count back into the field, counts as malformed here; `ConsumedIff` delimits this case and `WalkEndsIff` says when the code's walk ends at all.
- MeshProto.FindData: the same lengths.
- MeshProto.ReadPacket: the same lengths.
- MeshProto.ReadData: the same lengths.
- MeshProto.ParseFromRadio: the same lengths, and position and telemetry payloads, are not followed.
- LongMessage.RadioPassesOn: what a real radio does besides, such as counting down the hop limit, is not part of this model.
- `encode_user` and `parse_node_info`: they use different field numbers.
- Sending the queued chunks one by one with a delay, and the formatting of the sender prefix: plumbing.
- Echo suppression through recorded outgoing hashes: only the window property of the ring is stated.
- TLV fields, announces, identity mapping, virtual identities, reconnect backoff, position and telemetry text, the HTTP stub and start-up: easy members or plumbing.
