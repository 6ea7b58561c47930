# Verification of an ESP32 Switch controller

A Dafny 4.11 model of the hard parts of the firmware and of its PC client, with proofs. From this
directory, `dafny verify dfyconfig.toml` checks everything.

## What is modelled

**Elliptic-curve arithmetic** (`uECC.c`, configured for secp256r1, plain C, eight 32-bit words).
Word arrays are arrays of `Word`, updated in place; every wrap-around is written out as `% W`.
`V(a)` is the number an array denotes.

- `Words`, `Bits`, `Vli`: numbers in words, and the word loops. `Mult`: product scanning and squaring.
- `Reduce`, `Congruence`: modular addition and subtraction, and the fast reduction of FIPS 186-4,
  Appendix D.2.3. `ModInv`: the binary inverse. `ModMultN`: shift-subtract reduction.
- `Field`, `Points`: the co-Z formulas, in place, against functions on residues, and those against
  integer polynomials. `Curve`: what the buffers stand for, by the chord and tangent laws.
  `JacobianCurve`: the formulas keep the curve equation; `AffineCurve`: so do chord and tangent.
- `Ladder`, `ScalarMult`, `Degenerate`, `CyclicLadder`: Montgomery's ladder, what it computes, where
  it breaks down, and the exact outcome for every scalar. `RegularLadder`, `KeyGen`: key generation. `OctetStrings`, `PublicKeys`: octet strings and key
  validation. `SharedSecrets`: Diffie-Hellman, where both sides obtain the same secret.

Two things about these proofs. First, the group enters as a hypothesis: `Multiples(mul)`,
`CyclicMultiples(mul)` and `BaseMultiples(mul)` say of a table `mul` of the multiples of a point that
it obeys the chord and tangent laws, that the point is on the curve and has order n, and that it is G;
`Doubles(mul)` adds that no multiple has order two. That all the multiples are on the curve, and that
G is, is proved. Associativity, the primality of p and n (`IsPrime`) and the order of the group are
not. The actual multiples of G form such a table, if opposite multiples are
listed with opposite y. Second, `Times` is multiplication by repeated addition, equal to `*`
(`TimesOne`): long derivations use it so that the solver does no nonlinear arithmetic by itself.

**A finding.** `EccPoint_compute_public_key` is commented to accept private keys in [1, n - 1]. For
1, n - 2 and n - 1 the ladder meets R[1] = -R[0] two bits before the end, both points collapse to
(0, 0), and the function returns 0. `KeyGen.PublicKey` proves that it succeeds exactly for 2, ..., n - 3.
`uECC_shared_secret` fails for the same reason; for a public key whose x coordinate is 0, because the
ladder's last division multiplies by x; and if the random initial Z is p itself, which the code does
not exclude. `CyclicLadder.EveryScalar` has the exact condition for every scalar.

**The emulated NFC microcontroller** (`nfc_mcu.c`): `BinaryPolynomials` and `Crc8`, `NfcPackets` (packets and operations on
a queue that is a sequence), `NfcMcu` (the C code on a ring of four slots, refining it), `NfcRuns`
(all runs). `Ring` is shared with the HID transport.

**The HID transport** (`btstack_hid.c`): `BtstackHid` (the reply ring, the request flag, the NFC
report), `HidRuns` (all runs, for any behaviour of the radio).

**The presentation workflow** (`library.py`, class Presenter): `Presentation` (the methods and
callbacks), `PresenterRuns` (all interleavings). Callbacks are values that carry what the closure
captured; the assumption that send and schedule invoke each callback once is that a pending
callback leaves `pending` when it runs.

**Streams**: `AdStructures` and `AdParser` (Bluetooth advertising data, Core Specification Vol 3,
Part C, section 11), `Lines`, `UartReader`, `LineDecoder`, and `DeadMan` (the 500 ms timer of the
PC control link).

**Another finding.** `ad_data_contains_uuid128` compares the expansion of a 16-bit entry, most
significant byte first, with the reversed UUID. For services on the Bluetooth base UUID 16-bit
lists are therefore never matched; `AdStructures.SearchesAgree` gives the exact condition under
which the search agrees with `ad_data_contains_uuid16`.

**Three limits with exact conditions.** `LineDecoder.feed` clears a partial line beyond 16384 bytes,
so its lines are independent of the chunking exactly when no complete line is longer, lines of
carriage returns aside (`LineDecoder.ChunkingDoesNotMatter`). The dead-man timer uses time zero as
"no state yet", so a command applied then outlives any silence (`DeadMan.SilenceReleases`,
`DeadMan.ReleasedUnlessAtZero`). The request flag of the HID transport is the one outstanding request
exactly if the Bluetooth stack forgets requests with the connection (`HidRuns.AtMostOneRequest`).

## Model

| member | source | states |
|---|---|---|
| `Vli.VliClear` | components/btstack/3rd-party/uECC.c:500-505 | the eight words at the offset are zero, the others unchanged |
| `Vli.VliIsZero` | components/btstack/3rd-party/uECC.c:510-518 | true iff the number is zero |
| `Bits.VliTestBit` | components/btstack/3rd-party/uECC.c:523-525 | true iff that binary digit of the number is one |
| `Vli.VliSet` | components/btstack/3rd-party/uECC.c:566-571 | copies the value and nothing else |
| `Vli.VliCmp` | components/btstack/3rd-party/uECC.c:576-586 | the sign of the difference of the two numbers |
| `Vli.VliRshift1` | components/btstack/3rd-party/uECC.c:604-615 | the number is halved; the top bit is clear |
| `Vli.VliAdd` | components/btstack/3rd-party/uECC.c:620-631 | result + carry * W^n = left + right for any length, also when the result aliases an operand |
| `Vli.VliSub` | components/btstack/3rd-party/uECC.c:636-647 | result - borrow * W^n = left - right, likewise |
| `Words.NumInjective` | components/btstack/3rd-party/uECC.c:773-796 | arrays that denote the same number hold the same words, so statements about values determine the words |
| `Mult.MulAdd` | components/btstack/3rd-party/uECC.c:651-689 | adds a * b to the three-word accumulator, exactly modulo W^3 |
| `Mult.Mul2Add` | components/btstack/3rd-party/uECC.c:726-771 | adds 2 * a * b to the accumulator, exactly modulo W^3 |
| `Mult.ColumnsAreProduct` | components/btstack/3rd-party/uECC.c:694-720 | the weighted column sums of two numbers add up to their product |
| `Mult.AddColumn` | components/btstack/3rd-party/uECC.c:701-717 | one column never overflows the accumulator |
| `Mult.VliMult` | components/btstack/3rd-party/uECC.c:694-720 | the exact 16-word product of any two 8-word numbers |
| `Mult.HalfColumnIsColumn` | components/btstack/3rd-party/uECC.c:778-792 | the half column with doubled products is the full column of a square |
| `Mult.VliSquare` | components/btstack/3rd-party/uECC.c:773-796 | left^2 exactly: the words of VliMult(left, left), by half the multiplications |
| `Reduce.VliModAdd` | components/btstack/3rd-party/uECC.c:809-818 | (left + right) mod m for residues, dropped carry included, any aliasing of the operands |
| `Reduce.VliModSub` | components/btstack/3rd-party/uECC.c:824-834 | (left - right) mod m for residues |
| `Reduce.FipsCongruence` | components/btstack/3rd-party/uECC.c:1111-1207 | t + 2 s1 + 2 s2 + s3 + s4 - d1 - d2 - d3 - d4 is congruent to the 512-bit number modulo p |
| `Reduce.AddTerms` | components/btstack/3rd-party/uECC.c:1115-1155 | the additions, doubling carries included, keep result + carry * 2^256 equal to the sum of the terms |
| `Reduce.SubtractTerms` | components/btstack/3rd-party/uECC.c:1157-1196 | the subtractions keep it, with a signed carry |
| `Reduce.CorrectResult` | components/btstack/3rd-party/uECC.c:1198-1206 | both correction loops end with carry 0 and the residue below p |
| `Reduce.VliMmodFast` | components/btstack/3rd-party/uECC.c:1111-1207 | product mod p, for every 512-bit product |
| `Reduce.VliModMultFast` | components/btstack/3rd-party/uECC.c:1467-1473 | (left * right) mod p for any 256-bit operands, the result aliasing either |
| `ModInv.HalveStep` | components/btstack/3rd-party/uECC.c:1513-1530 | halving keeps a = u * x (mod m), the common divisors of a and b, the ranges, and makes a + b smaller |
| `ModInv.SubtractStep` | components/btstack/3rd-party/uECC.c:1531-1559 | so do the subtraction branches |
| `ModInv.HalveModulo` | components/btstack/3rd-party/uECC.c:1515-1521 | u / 2 mod m for odd m, with the dropped carry restored as the top bit |
| `ModInv.EuclidLoop` | components/btstack/3rd-party/uECC.c:1511-1560 | the loop terminates, a + b decreasing, at the greatest common divisor |
| `ModInv.VliModInv` | components/btstack/3rd-party/uECC.c:1496-1562 | result < m with result * input = gcd(input, m) (mod m), the inverse when they are coprime; zero gives zero |
| `ModMultN.Vli2Rshift1` | components/btstack/3rd-party/uECC.c:2426-2430 | halves the 16-word number |
| `ModMultN.Sub16` | components/btstack/3rd-party/uECC.c:2432-2445 | the borrow tells the order of two 16-word numbers, the difference is exact otherwise |
| `ModMultN.ReductionStep` | components/btstack/3rd-party/uECC.c:2460-2464 | before step i the remainder is below 2 n 2^(256-i), and its residue modulo n never changes |
| `ModMultN.VliModMultN` | components/btstack/3rd-party/uECC.c:2448-2466 | (left * right) mod n for any 256-bit operands |
| `Field.HalveField` | components/btstack/3rd-party/uECC.c:1639-1645 | half of a residue: p is added to an odd one and the carry comes back as the top bit |
| `Points.ApplyZ` | components/btstack/3rd-party/uECC.c:1662-1671 | the buffers hold the residues (x z^2, y z^3) |
| `Points.ScaleMeans` | components/btstack/3rd-party/uECC.c:1662-1671 | as a congruence for any integers the buffers stand for |
| `Points.EccPointDoubleJacobian` | components/btstack/3rd-party/uECC.c:1615-1658 | the in-place code computes the function DoubleJacobian; Z = 0 is left alone |
| `Points.DoubleMeans` | components/btstack/3rd-party/uECC.c:1615-1658 | for any half h of 3 (x^2 - z^4): (h^2 - 2 x y^2, h (x y^2 - x3) - y^4) over y z |
| `JacobianCurve.DoubleKeepsCurve` | components/btstack/3rd-party/uECC.c:1615-1658 | y^2 = x^3 - 3 x z^4 + b z^6 is kept for every point and every z, without division |
| `Curve.DoubleRepresents` | components/btstack/3rd-party/uECC.c:1615-1658 | if (X, Y, Z) stands for an affine point, the result stands for the tangent-law double |
| `Points.XYcZInitialDouble` | components/btstack/3rd-party/uECC.c:1674-1693 | the buffers hold InitialDouble: P rescaled and 2P over a common Z |
| `Curve.InitialDoubleRepresents` | components/btstack/3rd-party/uECC.c:1674-1693 | they stand for P and 2P |
| `Points.XYcZAdd` | components/btstack/3rd-party/uECC.c:1699-1722 | the in-place code computes the function CoZAdd |
| `Points.CoZAddMeans` | components/btstack/3rd-party/uECC.c:1699-1722 | P becomes (x1 d^2, y1 d^3) with d = x2 - x1 and the sum satisfies the denominator-cleared chord law, for all inputs below p |
| `Curve.AddRepresents` | components/btstack/3rd-party/uECC.c:1699-1722 | the pairs stand for P and P + Q over Z (x2 - x1) |
| `JacobianCurve.AddKeepsCurve` | components/btstack/3rd-party/uECC.c:1699-1722 | both outputs satisfy the curve equation over z (x2 - x1), for any two points over z, equal or not, without division |
| `Points.XYcZAddC` | components/btstack/3rd-party/uECC.c:1728-1761 | the in-place code computes the function CoZAddC |
| `Points.CoZAddCSum` | components/btstack/3rd-party/uECC.c:1728-1761 | the sum as a denominator-cleared congruence |
| `Points.CoZAddCDifference` | components/btstack/3rd-party/uECC.c:1728-1761 | the difference likewise |
| `Curve.AddCRepresents` | components/btstack/3rd-party/uECC.c:1728-1761 | the pairs stand for P + Q and P - Q over the same new Z |
| `JacobianCurve.AddCKeepsCurve` | components/btstack/3rd-party/uECC.c:1728-1761 | sum and difference satisfy the curve equation over z (x2 - x1), likewise |
| `Ladder.LadderIteration` | components/btstack/3rd-party/uECC.c:1780-1784 | one scalar bit on the index-swapped buffers is LadderStep |
| `Ladder.FindFinalZ` | components/btstack/3rd-party/uECC.c:1789-1796 | z holds Xb yP / (xP Yb (X1 - X0)), as far as that inverse exists |
| `Ladder.EccPointMult` | components/btstack/3rd-party/uECC.c:1763-1803 | the whole ladder computes LadderResult, also when the result aliases the scalar or the point |
| `ScalarMult.StepRepresents` | components/btstack/3rd-party/uECC.c:1780-1784 | R[0] = m P and R[1] = (m + 1) P become (2m + bit) P and (2m + bit + 1) P |
| `ScalarMult.LoopRepresents` | components/btstack/3rd-party/uECC.c:1775-1784 | so R[1] - R[0] = P at every bit of the loop, R[0] following the prefix of the scalar |
| `ScalarMult.FinalZInverts` | components/btstack/3rd-party/uECC.c:1789-1796 | the final z is the inverse of the last Z, for either value of the last bit |
| `Degenerate.StepCollapses` | components/btstack/3rd-party/uECC.c:1699-1761 | from R[1] = -R[0] one step leaves (0, 0) and a point of the cusp y^2 = x^3 |
| `Degenerate.CollapsedResult` | components/btstack/3rd-party/uECC.c:1786-1802 | and then the result is (0, 0) |
| `Degenerate.MirroredResult` | components/btstack/3rd-party/uECC.c:1786-1802 | so it is from R[1] = -R[0] before the last bit |
| `Degenerate.ZeroResult` | components/btstack/3rd-party/uECC.c:1763-1803 | and, for every scalar, for a point with x = 0 and for an initial Z divisible by p, p itself included |
| `CyclicLadder.MultipleOnCurve` | components/btstack/3rd-party/uECC.c:1699-1761 | all multiples of a point of the curve are on the curve: chords and tangents do not leave it |
| `CyclicLadder.GoodLadder` | components/btstack/3rd-party/uECC.c:1763-1803 | every scalar below 2^257 but n - 1, n and 2n - 2, ..., 2n + 1 meets only different x coordinates |
| `CyclicLadder.BadResult` | components/btstack/3rd-party/uECC.c:1763-1803 | for those six the ladder reaches R[1] = -R[0] and returns (0, 0) |
| `CyclicLadder.EveryScalar` | components/btstack/3rd-party/uECC.c:1763-1803 | for every scalar of up to 257 bits, initial Z and point of order n: a point comes out iff S = 2^(numBits-1) + scalar mod 2^(numBits-1) is none of the six and neither x(P) nor Z is divisible by p, and then it is S * P, reduced |
| `RegularLadder.Regularise` | components/btstack/3rd-party/uECC.c:1827-1831 | p2[!carry] is private + n or private + 2n without its leading bit, for every 256-bit number, also in place |
| `RegularLadder.RegularisedScalar` | components/btstack/3rd-party/uECC.c:1827-1831 | that scalar has exactly 257 bits and is congruent to private modulo n |
| `KeyGen.EccPointComputePublicKey` | components/btstack/3rd-party/uECC.c:1805-1838 | for every table of the multiples of G: succeeds exactly for the keys 2, ..., n - 3, with result private * G, reduced; 0 and keys from n on leave the result alone |
| `RegularLadder.CollapsingNumbers` | components/btstack/3rd-party/uECC.c:1827-1831 | the regularised scalar is one of the six exactly for 0, 1, n - 2, n - 1, n and n + 1 |
| `RegularLadder.RegularisedResult` | components/btstack/3rd-party/uECC.c:1763-1831 | for any 256-bit number k, any point P of order n and any initial Z: a point comes out iff k is none of these and neither x(P) nor Z is divisible by p, and then it is k * P, reduced |
| `KeyGen.GeneratorOnCurve` | components/btstack/3rd-party/uECC.c:376-377 | the constants curve_G satisfy the curve equation with the constant b |
| `KeyGen.PublicKey` | components/btstack/3rd-party/uECC.c:1811-1838 | the same of any outcome of the ladder that the code can see |
| `OctetStrings.VliNativeToBytes` | components/btstack/3rd-party/uECC.c:1994-2003 | the 32 octets denote the number, big-endian |
| `OctetStrings.VliBytesToNative` | components/btstack/3rd-party/uECC.c:2005-2012 | the words denote the number of the octets |
| `OctetStrings.RoundTrip` | components/btstack/3rd-party/uECC.c:1994-2012 | the conversions are mutually inverse |
| `OctetStrings.OctetIsDigit` | components/btstack/3rd-party/uECC.c:1994-2012 | octet i of a string is digit i, from the top, of its number in base 256 |
| `PublicKeys.XSideMeans` | components/btstack/3rd-party/uECC.c:2115-2129 | the residue of x^3 - 3x + b |
| `PublicKeys.CurveXSide` | components/btstack/3rd-party/uECC.c:2115-2129 | the code computes it, for any 256-bit x |
| `PublicKeys.ValidPublicKey` | components/btstack/3rd-party/uECC.c:2149-2172 | 1 iff the number x of the first 32 octets and y of the last 32 are below p, not both zero, and satisfy the curve equation |
| `PublicKeys.ComputePublicKey` | components/btstack/3rd-party/uECC.c:2174-2188 | in octets, x in the first 32 and y in the last 32: private * G for exactly the keys 2, ..., n - 3, and a valid key; on failure the buffer is unchanged |
| `PublicKeys.ComputeThenValidate` | components/btstack/3rd-party/uECC.c:2149-2188 | uECC_valid_public_key accepts whatever uECC_compute_public_key has computed |
| `PublicKeys.CorrectIsValid` | components/btstack/3rd-party/uECC.c:2149-2188 | every correct public key passes the test of uECC_valid_public_key |
| `SharedSecrets.MultiplyPublic` | components/btstack/3rd-party/uECC.c:2093-2099 | for any 256-bit private number, any point of order n and any initial Z: succeeds iff the number is none of the six and neither x nor Z is divisible by p, with the x coordinate of the multiple |
| `SharedSecrets.ComputeSharedSecret` | components/btstack/3rd-party/uECC.c:2060-2100 | the same in octets: x of the point in the first 32 of the public key, y in the last 32, Z = 1 without a random number |
| `SharedSecrets.ScaledCyclic` | components/btstack/3rd-party/uECC.c:2060-2100 | the multiples of a public point form a group of order n like those of G |
| `SharedSecrets.SecretIsMultiple` | components/btstack/3rd-party/uECC.c:2060-2100 | the secret is the x coordinate of (b * k) * G |
| `SharedSecrets.SecretsAgree` | components/btstack/3rd-party/uECC.c:2060-2188 | each holder of two computed key pairs obtains a secret iff the other public key has x not 0 and the own initial Z is not divisible by p, and two secrets are equal |
| `SharedSecrets.Exchange` | components/btstack/3rd-party/uECC.c:2060-2188 | the whole exchange on octets: two computed key pairs, two secrets; if all four calls succeed the 32 octets are the same |
| `Crc8.NfcCrc8` | main/nfc_mcu.c:26-34 | the message, read as a binary number with the high bit first, times x^8 leaves this byte and no other when divided by x^8 + x^2 + x + 1 over the field of two elements |
| `BinaryPolynomials.SumDigit` | main/nfc_mcu.c:30-31 | addition of the polynomials is exclusive or, digit by digit, at any length |
| `BinaryPolynomials.LeavesOne` | main/nfc_mcu.c:26-34 | division by a polynomial leaves at most one remainder below its degree |
| `Crc8.CrcLinear` | main/nfc_mcu.c:26-34 | linear under exclusive or, for messages of equal length |
| `Crc8.CrcOfSealed` | main/nfc_mcu.c:26-34 | zero on a message followed by its CRC |
| `Crc8.OneByteDetected` | main/nfc_mcu.c:26-34 | any change confined to one byte changes the CRC, at any length |
| `NfcMcu.Mcu.Reserve` | main/nfc_mcu.c:55-61 | the next ring slot, zeroed, or none when four packets wait |
| `NfcMcu.Mcu.SendStatus` | main/nfc_mcu.c:63-72 | appends one packet, whose bytes are given, with the power state, if fewer than four wait |
| `NfcMcu.Mcu.SendPoll` | main/nfc_mcu.c:90-101 | appends one packet with the poll state, if fewer than four wait; while a tag is searched for and present it carries the UID, and the state becomes 1 the first time and 9 from then on |
| `NfcMcu.Mcu.ReadTag` | main/nfc_mcu.c:102-125 | the queue becomes the three packets of the tag |
| `NfcMcu.Mcu.HandleCommand` | main/nfc_mcu.c:126-143 | which packets are accepted, byte by byte, and what each of the five kinds does to the state and the queue; a refused one changes nothing |
| `NfcMcu.Mcu.NfcCommand` | main/nfc_mcu.c:144-152 | the same with the counters and the last command |
| `NfcMcu.Mcu.NfcReset` | main/nfc_mcu.c:35-36 | queue, power, poll, seen and diagnostics are cleared, the tag stays |
| `NfcMcu.Mcu.NfcLoad` | main/nfc_mcu.c:37-45 | 540 bytes become the tag, and the queue is replaced by the one packet that tells: a poll answer with their UID, a status packet, or none; other lengths change nothing |
| `NfcMcu.Mcu.NfcUnload` | main/nfc_mcu.c:46-50 | the tag is cleared, and the queue replaced by a poll answer without a tag while one is searched for |
| `NfcMcu.Mcu.NfcPower` | main/nfc_mcu.c:73-77 | 0 and 1 become the power state, with one status packet in the queue; others change nothing |
| `NfcMcu.Mcu.NfcConfig` | main/nfc_mcu.c:78-89 | accepts 0, 1 and 4; 1 and 4 become the power state while it is on, with one status packet in the queue; the 34-byte reply carries a valid CRC |
| `NfcMcu.Mcu.NfcPeek` | main/nfc_mcu.c:153-157 | the first queued packet, or 0xff, zeros and their CRC |
| `NfcMcu.Mcu.NfcCommit` | main/nfc_mcu.c:158-161 | removes the first queued packet |
| `NfcRuns.Reachable` | main/nfc_mcu.c:35-161 | in every reachable state power is 0, 1 or 4, poll is 0, 1 or 9, poll needs power 4, 9 needs a tag seen, seen needs a tag, and every queued packet is up to date |
| `NfcRuns.QueueIsCurrent` | main/nfc_mcu.c:35-125 | byte by byte: a queued status packet shows the current power, a poll answer or fragment holds the UID and bytes of the loaded tag |
| `NfcRuns.LoadedExactly` | main/nfc_mcu.c:35-50 | after any history a tag is present iff a load of 540 bytes was not followed by an unload, and it is the data of the last one; otherwise it is zero |
| `NfcRuns.PowerAndSearch` | main/nfc_mcu.c:35-143 | the power state and whether tags are searched for follow from the resets, power, configuration, start and stop operations alone |
| `NfcRuns.PeekIsSealed` | main/nfc_mcu.c:62-157 | whatever the history, the packet on offer ends with the CRC of the bytes before |
| `NfcRuns.Conservation` | main/nfc_mcu.c:55-161 | without a flush, the committed packets followed by the queue are the old queue followed by the appended packets |
| `NfcRuns.ReadSurvives` | main/nfc_mcu.c:37-161 | after any history an accepted read leaves three packets that rebuild the 540 bytes of the last load; three commits later they came out first and intact, whatever polls came between |
| `BtstackHid.Transport.SendNextReport` | main/btstack_hid.c:73-133 | offers the waiting reply, else 12 bytes, 49 bytes or 49 bytes with the NFC packet, as the stream mode says; only on acceptance the reply, a count or the packet is consumed |
| `BtstackHid.Transport.CanSendNow` | main/btstack_hid.c:274-281 | sends only when connected and asked for |
| `BtstackHid.Transport.InputTimer` | main/btstack_hid.c:135-157 | asks for a send slot if none is asked for |
| `BtstackHid.Transport.ConnectionOpened` | main/btstack_hid.c:248-264 | starts with an empty ring, no request, no count and the NFC side reset; a failed opening changes nothing |
| `BtstackHid.Transport.ConnectionClosed` | main/btstack_hid.c:265-273 | drops the ring and the request |
| `BtstackHid.Transport.SendInputReport` | main/btstack_hid.c:355-371 | appends a reply of 1 to 49 bytes while connected and fewer than eight wait, and asks for a slot unless one is asked for; refuses it otherwise |
| `HidRuns.RepliesConserved` | main/btstack_hid.c:73-133 | within a connection, transmitted replies followed by waiting ones are the earlier waiting ones followed by the accepted ones, under arbitrary send failures |
| `HidRuns.ConnectionReplies` | main/btstack_hid.c:248-281 | from the opening of a connection: transmitted then waiting are exactly the accepted replies |
| `HidRuns.RepliesFirst` | main/btstack_hid.c:73-108 | no streaming report goes out while a reply waits |
| `HidRuns.AtMostOneRequest` | main/btstack_hid.c:135-149 | if the stack answers only what was asked, the flag is the one outstanding can-send request throughout every run, exactly if the stack forgets requests where a connection begins or ends, or has none there |
| `HidRuns.SecondRequest` | main/btstack_hid.c:248-281 | a run in which it does neither, with two requests outstanding |
| `HidRuns.CommittedIsCarried` | main/btstack_hid.c:98-117 | the packets committed over a run are exactly those that transmitted reports carried |
| `HidRuns.TagReachesRadio` | main/btstack_hid.c:73-133 | the packets of an accepted read reach the radio first, in order and unchanged |
| `HidRuns.RepliesDrain` | main/btstack_hid.c:73-157 | within a connection, after n successful sends the first n of the waiting replies are out, in order, whatever failures, answers and NFC commands lie between |
| `HidRuns.HonestSendsSucceed` | main/btstack_hid.c:135-281 | if the stack answers only what was asked, a send succeeds exactly if the radio accepts it |
| `Presentation.Presenter.Reset` | pc/library.py:89-96 | nothing is awaited afterwards, shown or known of the tag: the callbacks still to come are stale |
| `Presentation.Presenter.Observe` | pc/library.py:98-103 | the reply tells about the tag; a shown file stays iff it reports a tag with its CRC, and none appears; nothing else changes |
| `Presentation.Presenter.Present` | pc/library.py:105-146 | starts iff nothing is awaited and the file is valid, with one unload, whose reply is then the one thing awaited; the shown file stays until then |
| `Presentation.Presenter.Remove` | pc/library.py:148-166 | starts iff nothing is awaited, with one unload, whose reply is then the one thing awaited |
| `Presentation.Presenter.RemovedReply` | pc/library.py:132-180 | a stale reply has no effect; on a live one the 500 ms gap is the one thing awaited iff the removal is confirmed and a file is to be presented, otherwise nothing; file, CRC and tag are given up iff the removal is confirmed, else an error is reported; no command goes out |
| `Presentation.Presenter.GapElapsed` | pc/library.py:125-130 | a load goes out iff the gap is live, and then the history holds an acknowledged unload of its generation, nothing is shown, and the reply is the one thing awaited |
| `Presentation.Presenter.LoadedReply` | pc/library.py:114-180 | a live reply ends the workflow; the file is shown iff the reply confirms it with its CRC, otherwise none is and an error is reported; a stale reply has no effect |
| `PresenterRuns.Reachable` | pc/library.py:70-189 | in every reachable state: one callback a generation, busy iff one of the current generation is awaited, the phase names it, a shown file has loaded and crc set |
| `PresenterRuns.BusyMeansAwaiting` | pc/library.py:168-189 | busy exactly while exactly one live callback is to come |
| `PresenterRuns.LoadAfterUnload` | pc/library.py:105-146 | a load goes out only at the end of a 500 ms gap that began with an acknowledged unload, loaded = false, of the same generation |
| `PresenterRuns.ShownExactly` | pc/library.py:89-146 | in every run a file is shown, and its CRC held, iff a live reply has confirmed it with its CRC and since then no reset, no contradicting observation and no confirmed removal has come |
| `PresenterRuns.LoadedExactly` | pc/library.py:89-146 | in every run `loaded` is what the last reset, observation, confirmed removal or confirmed load said |
| `PresenterRuns.LastPathExactly` | pc/library.py:120-120 | in every run `last_path` is the file confirmed last |
| `PresenterRuns.PresentationCompletes` | pc/library.py:105-146 | with cooperative replies a presentation ends with the file shown and no callback left |
| `AdParser.Context.HasMore` | components/btstack/src/ad_parser.c:63-80 | true iff a complete structure follows |
| `AdParser.Context.GetData` | components/btstack/src/ad_parser.c:88-98 | the data of that structure |
| `AdParser.Context.Next` | components/btstack/src/ad_parser.c:83-86 | moves to the next structure; the 8-bit offset does not wrap |
| `AdStructures.StructuresArePrefix` | components/btstack/src/ad_parser.c:57-98 | the visited structures are the longest well-formed prefix of the buffer |
| `AdStructures.StructuresAreUnique` | components/btstack/src/ad_parser.c:57-98 | and the only way to split it |
| `AdStructures.RoundTrip` | components/btstack/src/ad_parser.c:57-98 | every encoded list of structures is returned |
| `AdParser.ContainsUuid16` | components/btstack/src/ad_parser.c:100-137 | true iff some visited UUID list contains the service, short or expanded |
| `AdParser.ContainsUuid128` | components/btstack/src/ad_parser.c:139-180 | true iff some visited list matches as the code compares |
| `AdStructures.ListsMeans` | components/btstack/src/ad_parser.c:112-131 | in bytes: kinds 2 and 3 hold 16-bit entries, kinds 6 and 7 entries on the Bluetooth base UUID, least significant byte first |
| `AdStructures.MatchesMeans` | components/btstack/src/ad_parser.c:139-180 | in bytes: what the search for a 128-bit UUID compares |
| `AdStructures.ShortListsAreMissed` | components/btstack/src/ad_parser.c:139-180 | for a service on the Bluetooth base UUID only the 128-bit lists are found |
| `AdStructures.SearchesAgree` | components/btstack/src/ad_parser.c:100-180 | the two searches agree on a service iff no short entry stands alone |
| `AdStructures.MissedService` | components/btstack/src/ad_parser.c:157-163 | the service 0x1812 in a 16-bit list is found by one search and missed by the other |
| `Lines.SplitJoins` | main/pc_control.c:128-148 | splitting loses nothing |
| `Lines.SplitIsUnique` | main/pc_control.c:128-148 | and is the only decomposition into lines |
| `UartReader.Reader.Receive` | main/pc_control.c:137-146 | one byte keeps the delivered lines equal to the batch specification |
| `UartReader.Read` | main/pc_control.c:128-148 | for any bytes: drop CR, split at LF, keep the lines of 1 to 1399 bytes, longer ones dropped whole |
| `UartReader.Resynchronises` | main/pc_control.c:139-145 | what comes before a line feed does not affect what comes after |
| `UartReader.LineByLine` | main/pc_control.c:128-148 | a line of 1 to 1399 bytes is delivered whole; any other, and what has no line feed yet, leaves no trace |
| `UartReader.CarriageReturnsVanish` | main/pc_control.c:137-137 | a carriage return anywhere changes nothing |
| `LineDecoder.Decoder.Feed` | pc/serial_link.py:27-35 | the complete lines of buffer + chunk, in order, each without the carriage returns at its end; the rest is kept unless it exceeds 16384 bytes |
| `LineDecoder.ChunkingDoesNotMatter` | pc/serial_link.py:27-35 | the lines are those of the whole stream for every chunking iff each complete line has at most 16384 bytes or only carriage returns |
| `DeadMan.Control.SetConnection` | main/pc_control.c:38-42 | no command is in force afterwards: buttons released, sticks at 0x800 |
| `DeadMan.Control.ObeyRelease` | main/pc_control.c:78-78 | likewise |
| `DeadMan.Control.ApplyState` | main/pc_control.c:79-93 | accepts iff linked and all seven numbers are in range, which is iff the command is then in force, and sets each field to its number; while not linked nothing is held, whatever the request |
| `DeadMan.Control.CheckTimer` | main/pc_control.c:126-126 | what is still held was requested by a command in force at most 500 ms old or applied at time zero; a command in force at most 500 ms old keeps what it holds |
| `DeadMan.HeldExactly` | main/pc_control.c:32-127 | in every run exactly that is held which a command in force requested: accepted over the present connection, with no command, release or late poll since |
| `DeadMan.DisconnectedIsNeutral` | main/pc_control.c:32-93 | without a connection nothing is held, in every run |
| `DeadMan.HeldAfterPoll` | main/pc_control.c:79-127 | after a poll exactly that is held which a command in force requested at most 500 ms before, or at time zero |
| `DeadMan.SilenceReleases` | main/pc_control.c:122-127 | after a poll that no state command precedes by 500 ms or less, something is held iff a command in force was applied at time zero |
| `DeadMan.ReleasedUnlessAtZero` | main/pc_control.c:91-126 | a held state is released by late polls iff it was not applied at time zero |

## Left out

- CyclicLadder.EveryScalar: under the hypotheses that p is prime and that the table of multiples obeys the laws of a group of order n.
- KeyGen.PublicKey: under the hypotheses that p is prime and that G has order n.
- SharedSecrets.SecretsAgree: under the hypotheses that p and n are prime and that G has order n.
- HidRuns.AtMostOneRequest: assumes that the Bluetooth stack announces a send slot only when asked; whether it forgets an unanswered request where a connection begins (also without a close before) or ends is a parameter.
- Other curves and word sizes of uECC.c, assembly, point compression and square roots, random numbers and the retry loops (uECC_make_key included), ECDSA signing and verification (except `vli_modMult_n`).
- The constant tables of uECC.c are allocated afresh by each function that uses them; RESTRICT is a precondition only where the proof needs it.
- Timing and side channels.
- A packet or reply slot is a value: a partly written slot, between reserve and finish, is not observable in the model. A pointer with a length is a sequence; null is the empty one.
- The bytes of input reports (input_report.c), the stream mode and the subcommand dispatcher (switch_proto.c) are parameters of the HID transport; logging and the stall warning are not modelled.
- The Bluetooth stack itself, the other HID back ends, UART and timer drivers.
- In library.py the file and settings half, `changed`, and the wording of phases and error messages; the time of the gap is a number, not a clock.
- JSON parsing, the load and unload branches of `command`, CRC-32 and the tag structure check in pc_control.c; the command queue of four lines between the reader task and the poll, which drops lines when full.
- A NUL byte in a command line ends the C string that the parser sees; `UartReader` delivers the bytes before that.
- Text decoding in serial_link.py, and its threads and queues.
- controller.py, cli.py, session.py, HID descriptors, generated headers.
