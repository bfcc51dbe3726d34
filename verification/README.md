# A Dafny model of the net80211 stack

This project models, in Dafny, the parts of an 802.11 stack where correctness is hard to see from the code, and proves
what they promise: the bitsliced AES and the resumable AES-CCM under it, the three link-layer ciphers CCMP, TKIP and WEP on
chains of buffers, fragmentation and reassembly, rate and RSN elements, the reference-counted node table, association ids,
and power save with the TIM element of beacons.

Each part has two layers. A value layer (`Ccm`, `Ccmp`, `Tkip`, `Frags`, `NodeTab`, `PowerSave`, ...) says what happens to
bytes, frames and tables, and carries the theorems: agreement with FIPS 197 (AES), RFC 3610 (CCM) and IEEE 802.11-2007, round
trips, and invariants of every run. A code layer (`CcmStream`, `CcmpCode`, `TkipCode`, `DefragCode`, `NodeCode`,
`PowerSaveCode`, ...) has the source's own classes, arrays and loops, updated in place, and proves each routine against the
value layer. An mbuf is an object with storage, offset and length; a packet is a sequence of mbufs and a total length.

How the parts build on one another:

- `Options`: a value or none, for lookups that may fail.
- `Circuits`, `Aes`, `AesCt`, `AesBits`, `AesCorrect`, `AesKey`, `AesCode`, `AesExample`: bitsliced AES against
  FIPS 197, and its worked example.
- `Blocks`, `Ccm`, `Bear`, `CcmState`, `CcmStream`, `CcmRfc`: CCM in one call, its two-lane back end, its resumable form.
- `Mbufs`, `Packets`, `CcmMbuf`, `LittleEndian`, `Ccmp`, `CcmpCode`: CCM over buffer chains, and CCMP.
- `Rc4`, `Wep`, `WepKeys`, `Michael`, `MichaelCode`, `Tkip`, `TkipCode`: WEP and TKIP.
- `Frags`, `Fragment`, `FragmentCode`, `DefragCode`, `Receive`: fragmentation, reassembly, and the MIC check after it.
- `Rates`, `RatesCode`, `Elements`, `ElementsCode`, `Rsn`: rate negotiation, information elements, RSN.
- `NodeTab`, `NodeCode`, `Iterate`, `Assoc`, `AssocCode`, `PowerSave`, `PowerSaveCode`, `Beacon`, `Tim`: the access point.

What the model takes as a parameter: the number of buffers the allocator still has, header padding, countermeasures and
hardware-cipher flags, the CRC table and the TKIP S-box, what is on the stack or behind a table where the code reads it, the result of callbacks in node iteration, the ages of frames.

## Where the code does less than it seems to promise

Each of these is kept as the code has it, with a lemma that says exactly when the promise holds.

- `aes_ccm_init` encodes a length of 2^32 - 1 in ten bytes where RFC 3610 has six: `CcmRfc.AadIsRfc`.
- `michael_mic_hdr` takes the priority of a QoS frame from the three-address position: `Michael.HeaderIsStandard`, an
  input `Michael.HeaderIsNotAlwaysStandard`.
- A TKIP frame that passes its ICV and fails its MIC under another upper counter half leaves a wrong phase-1 key in the
  receive cache: `Tkip.ReceiveKeepsGood`, over whole runs `Tkip.GoodExactly`, an input `Tkip.MicFailureSpoilsCache`.
- The TKIP transmit cache does not record the address it was filled for: `TkipCode.TkipKey.TxKey`, an
  input `TkipCode.SecondSender`.
- The WEP and TKIP integrity check reads four bytes from the last buffer's storage, also when the value began in another
  buffer: `Rc4.VerdictExactly`, `Wep.SealedInChain`, an input `Wep.Straddling`.
- A frame cut into more than 16 fragments does not come back: `Fragment.RoundTrip`, an input
  `Fragment.SeventeenFragments`; reassembly then joins pieces that carry different sequence numbers: `Frags.SameFrame`.
- `m_cat` of this port adds to the packet length of a single buffer what `ieee80211_defrag` adds once more, against the
  comment there: `DefragCode.Station.Defrag` says which reassembled packets have a right length, an input
  `DefragCode.TwoFragments`. `tkip_demic` goes by that length: `Receive.GenuineExactly`, an input `Receive.LeavesChain`.
- `tkip_demic` does not test that a body holds a MIC: `TkipCode.TkipKey.Demic`, an input `Receive.BareHeader`.
- `ccmp_decrypt` asserts a non-empty body, which nothing before it tests; the code itself opens an empty one as well:
  `CcmpCode.CcmpKey.Decap`, an input `CcmpCode.EmptyBody`.
- `ieee80211_fix_rate` takes a rate of value zero for none: `RatesCode.Negotiated`, an input `RatesCode.ZeroRateFails`.
- The table of RSN suites has no entry for the group cipher none: `Rsn.OursIsAccepted`, an input `Rsn.NoneRefused`.
- RSN capabilities at the very end of an element are not read, because more than two bytes are asked for:
  `Rsn.CapsReadExactly`, an input `Rsn.CapsLost`.
- A station that leaves with frames waiting leaves its TIM bit behind, because its id is cleared first:
  `PowerSave.LeftBehindExactly`, an input `PowerSave.StaleBit`.
- The age of a saved frame is stored as the difference to the frame before it alone: `PowerSave.SavedAge`, an input
  `PowerSave.ThirdStaysTwice`.
- The beacon's bitmap offset is rewritten only when the length changes: `Beacon.ReadExactly` and, for the stations of a
  run, `Tim.BeaconsTell`, an input `Beacon.MovedWindow`; and a bitmap whose first byte in use is
  number 128 or 129 looks empty: `Beacon.SentinelExactly`, an input `Beacon.SentinelFires`.
- Slot capability or rates that change at reassociation break the long-slot and non-ERP counts: `Assoc.CountsExactly`, an
  input `Assoc.BogusCount`.

## Model

| member | source | states |
|---|---|---|
| `Circuits.InvSubByteUndoesSubByte` | crypto/aes/aes_ct_dec.c:35-93 | for every byte, the decryption S-box circuit undoes the encryption S-box circuit |
| `Circuits.SubByteUndoesInvSubByte` | crypto/aes/aes_ct_dec.c:35-93 | for every byte, the encryption S-box circuit undoes the decryption S-box circuit |
| `Circuits.SubByteIsAffineOfInverse` | crypto/aes/aes_ct.c:41-215 | the S-box circuit is the S-box of section 5.1.1 of FIPS 197: the affine map of the inverse in GF(2^8), zero going to zero |
| `AesBits.SboxByte` | crypto/aes/aes_ct.c:41-215 | on eight words the circuit applies the S-box, or its inverse, to each of the 32 bytes they hold |
| `AesBits.MixIsFips` | crypto/aes/aes_ct_enc.c:69-100 | the rotations and exclusive-ors of mix_columns are the matrix of section 5.1.3 of FIPS 197, and inv_mix_columns undoes them |
| `AesBits.OrthoTransposes` | crypto/aes/aes_ct.c:218-247 | br_aes_ct_ortho transposes each of the four 8 by 8 bit matrices |
| `AesBits.OrthoInvolution` | crypto/aes/aes_ct.c:218-247 | applying br_aes_ct_ortho twice changes nothing |
| `AesBits.InvSboxUndoesSbox` | crypto/aes/aes_ct_dec.c:35-93 | br_aes_ct_bitslice_invSbox undoes br_aes_ct_bitslice_Sbox on all eight-word states |
| `AesBits.InvMixColumnsUndoesMixColumns` | crypto/aes/aes_ct_dec.c:127-158 | inv_mix_columns undoes mix_columns on all eight-word states |
| `AesBits.InvShiftRowsUndoesShiftRows` | crypto/aes/aes_ct_dec.c:105-119 | inv_shift_rows undoes shift_rows on all eight-word states |
| `AesCorrect.DecryptUndoesEncrypt` | crypto/aes/aes_ct_dec.c:161-177 | bitsliced decryption undoes bitsliced encryption for every round count of at least 1, every schedule and every state |
| `AesCorrect.EncryptPairIsCipher` | crypto/aes/aes_ct_enc.c:103-119 | between two orthogonalizations, bitsliced encryption is the cipher of section 5.1 of FIPS 197 on each of the two blocks |
| `AesExample.FirstRound` | crypto/aes/aes_ct_enc.c:103-119 | under the key and input of appendix B of FIPS 197, the reference cipher has the state of that appendix after the first round |
| `AesExample.RowsShift` | crypto/aes/aes_ct_enc.c:47-62 | ShiftRows of the reference moves row r left by r columns: equation 5.3 of FIPS 197 |
| `AesKey.SchedIsFips` | crypto/aes/aes_ct.c:291-313 | word i of the key schedule is word i of the key expansion of section 5.2 of FIPS 197, for 128, 192 and 256 bit keys |
| `AesExample.Expands` | crypto/aes/aes_ct.c:291-313 | the reference expansion of the key of appendix A.1 of FIPS 197 has the words of that appendix in its first two round keys |
| `AesKey.ExpandRestores` | crypto/aes/aes_ct.c:325-341 | br_aes_ct_skey_expand gives back exactly the words that the schedule compressed |
| `AesKey.ScheduleIsFips` | crypto/aes/aes_ct.c:269-341 | each round of an expanded compressed schedule is the FIPS 197 round key, in both lanes |
| `AesCode.Ortho` | crypto/aes/aes_ct.c:218-247 | in place, the eight words at an offset become their transposition and no other word changes |
| `AesCode.SboxInPlace` | crypto/aes/aes_ct.c:41-215 | after the gates, each of the 32 bytes in the array is the affine map of the inverse in GF(2^8) of the byte that was there, as section 5.1.1 of FIPS 197 has it |
| `AesCode.InvSboxInPlace` | crypto/aes/aes_ct_dec.c:35-93 | affine layer, gates, affine layer: each of the 32 bytes becomes the one whose S-box value it was |
| `AesCode.BitsliceEncrypt` | crypto/aes/aes_ct_enc.c:103-119 | the ascending round loop in place computes the encryption that EncryptPairIsCipher is about |
| `AesCode.BitsliceDecrypt` | crypto/aes/aes_ct_dec.c:161-177 | the descending round loop in place computes the decryption that undoes it |
| `AesCode.KeySched` | crypto/aes/aes_ct.c:269-322 | for a key of 16, 24 or 32 bytes the compressed words hold the round keys and the number of rounds is returned; for any other length 0 is, and nothing is written |
| `AesCode.SkeyExpand` | crypto/aes/aes_ct.c:325-341 | the loop fills the array with the expansion of each round |
| `Blocks.PairIsAes` | crypto/aes/aes_bear.c:89-120 | transform, encrypt, transform back: both lanes hold the AES of the blocks they held, under the round keys of the compressed schedule |
| `Blocks.ScheduleExpandsKey` | crypto/aes/aes_bear.c:49-69 | the round keys of a compressed schedule are the FIPS 197 expansion of the bytes of the key |
| `Bear.SetKey` | crypto/aes/aes_bear.c:49-69 | the key set up for the back end stands for the FIPS 197 expansion of the given bytes, so its cipher is AES under those bytes |
| `Bear.EncryptPair` | crypto/aes/aes_bear.c:646-709 | one bitsliced call encrypts both lanes, each as if alone |
| `Bear.Enc` | crypto/aes/aes_bear.c:89-120 | one block encrypted; source and destination may be the same place |
| `Bear.CbcMacUpdate1` | crypto/aes/aes_bear.c:600-644 | the authenticator becomes the CBC-MAC over all blocks of the input |
| `Bear.CcmEnc1` | crypto/aes/aes_bear.c:646-709 | the two-lane loop gives what separate serial CBC-MAC and counter-mode loops give, in place or not; only the last four counter bytes move |
| `Bear.CcmDec1` | crypto/aes/aes_bear.c:711-812 | so does the loop that runs one block ahead: counter-mode output, and the CBC-MAC of that output |
| `CcmState.CounterBytes` | crypto/aes/aes_ccm.c:66-74 | within a message the low counter byte carries exactly every 256 blocks and the high one never wraps |
| `CcmState.CounterAdvance` | crypto/aes/aes_bear.c:646-709 | k 32-bit increments of the counter word agree with k calls of aes_ccm_inc and leave the nonce bytes alone |
| `CcmStream.Stream.constructor` | crypto/aes/aes_ccm.c:85-181 | after initialization the authenticator is the CBC-MAC of B_0 and the encoded additional data, for any additional data, and the state is that of the empty message |
| `CcmStream.Stream.Inc` | crypto/aes/aes_ccm.c:66-74 | the counter block goes from block b to b + 1; the panic on overflow is out of reach |
| `CcmStream.Stream.Enc` | crypto/aes/aes_ccm.c:183-241 | from any state within the message, n more bytes, zero included, in place or not: the output is the key stream of section 2.3 of RFC 3610 at that position, and the state is that of the longer message |
| `CcmStream.Stream.Dec` | crypto/aes/aes_ccm.c:243-301 | the same for decryption: the recovered bytes enter the authenticator |
| `CcmStream.Stream.Tag` | crypto/aes/aes_ccm.c:303-328 | the first M bytes of the final authenticator under the key stream block 0; the context is used up |
| `CcmStream.Stream.Verify` | crypto/aes/aes_ccm.c:330-341 | accepts exactly when the given M bytes equal the tag of the message so far |
| `CcmRfc.AadLengthIsRfc` | crypto/aes/aes_ccm.c:119-149 | the encoded length of the additional data is that of section 2.2 of RFC 3610 if and only if the length is not 2^32 - 1 |
| `CcmRfc.AadIsRfc` | crypto/aes/aes_ccm.c:119-172 | the additional data enters the authenticator as section 2.2 of RFC 3610 says if and only if its length is not 2^32 - 1 |
| `CcmRfc.TagIsRfc` | crypto/aes/aes_ccm.c:85-328 | the tag after the whole message is the tag of sections 2.2 and 2.3 of RFC 3610, for every key, nonce, message and additional data of any other length; from 2^16 bytes on, where RFC 3610 with L = 2 has no message, both take the length modulo 2^16 |
| `CcmRfc.PacketVector1` | crypto/aes/aes_ccm.c:85-181 | first CBC-MAC block, additional data block and key stream block of packet vector 1 of RFC 3610, byte by byte |
| `CcmRfc.StreamStarts` | crypto/aes/aes_ccm.c:183-328 | for any cipher, the message is encrypted from block 1 of the key stream on and the tag under block 0 |
| `CcmRfc.AnyCutJoins` | crypto/aes/aes_ccm.c:183-241 | however a message is cut into calls, empty ones included, the joined output is that of one call |
| `CcmRfc.CutsUndone` | crypto/aes/aes_ccm.c:243-301 | decrypting in any pieces what was encrypted in any other pieces gives the plaintext back |
| `CcmMbuf.EncMbuf` | crypto/aes/aes_ccm_mbuf.c:41-62 | over any chain, len bytes from off on are replaced by their ciphertext, every other byte is kept, and the tag is that of those bytes |
| `CcmMbuf.DecMbuf` | crypto/aes/aes_ccm_mbuf.c:64-105 | the verdict is whether the tag fits; when it does those bytes are the plaintext, otherwise they are all zero |
| `Mbufs.BytesWithin` | crypto/aes/aes_ccm_mbuf.c:41-62 | the bytes of one buffer are a stretch of the bytes of the chain |
| `Mbufs.WroteData` | crypto/aes/aes_ccm_mbuf.c:41-62 | writing within one buffer writes that stretch and nothing else |
| `Packets.Packet.Append` | net80211/ieee80211_netbsd.c:758-797 | m_append adds the bytes at the end; when buffers run out a prefix was added and failure is reported |
| `Packets.Packet.AdjHead` | port/net/embox/bsd_mbuf.c:89-135 | m_adj with a positive count drops that many bytes from the head, or all |
| `Packets.Packet.AdjTail` | port/net/embox/bsd_mbuf.c:89-135 | m_adj with a negative count drops that many bytes from the tail, or all |
| `Packets.Packet.CopyOut` | port/net/embox/bsd_mbuf.c:178-201 | m_copydata yields the bytes at the offset, whatever the chain looks like, and changes nothing |
| `Packets.Packet.Strip` | net80211/ieee80211_crypto_ccmp.c:245-250 | moving the header up and trimming both ends leaves the header followed by the body |
| `LittleEndian.ValueOfBytes` | net80211/ieee80211_crypto_ccmp.c:187-193 | reading the k low bytes of n gives n modulo 256^k |
| `LittleEndian.BytesOfValue` | net80211/ieee80211_crypto_ccmp.c:187-193 | the bytes of the number read are the bytes that were read |
| `Ccmp.ProtectedExactly` | net80211/ieee80211_crypto_ccmp.c:283-354 | two headers give the same nonce and additional data if and only if they agree, bit by bit, on everything but the retry, power management and more data bits, the middle subtype bits, duration, sequence number, and the QoS bits outside the priority |
| `Ccmp.AadParts` | net80211/ieee80211_crypto_ccmp.c:303-347 | the additional data byte by byte, as section 8.3.3.3.2 of IEEE 802.11-2007 lays it out, for all four header shapes |
| `Ccmp.HeaderSizes` | net80211/ieee80211_proto.h:105-120 | a header is 24, 26, 30 or 32 bytes long, by the bits for four addresses and for QoS data |
| `Ccmp.FrameControlProtected` | net80211/ieee80211_crypto_ccmp.c:303-306 | any change of a frame control bit other than the six left out changes the additional data |
| `Ccmp.NonceParts` | net80211/ieee80211_crypto_ccmp.c:293-302 | the nonce: priority, transmitter, and the six bytes of the packet number, highest first |
| `Ccmp.IvParts` | net80211/ieee80211_crypto_ccmp.c:145-174 | the CCMP header: PN0, PN1, zero, key id with the extended IV bit, PN2 to PN5 |
| `Ccmp.NonceMasked` | net80211/ieee80211_crypto_ccmp.c:283-354 | only the low 48 bits of the packet number enter the nonce |
| `Ccmp.RoundTrip` | net80211/ieee80211_crypto_ccmp.c:145-411 | a sealed frame, empty payload included, whose unprotected header fields changed on the way is accepted above the receive counter, with its packet number and payload |
| `Ccmp.PnIncreases` | net80211/ieee80211_crypto_ccmp.c:200-258 | over any arrivals, the packet numbers accepted under a key strictly increase |
| `Ccmp.NoReplay` | net80211/ieee80211_crypto_ccmp.c:200-258 | a frame accepted once is dropped ever after, whatever arrived in between |
| `Ccmp.FreshNonces` | net80211/ieee80211_crypto_ccmp.c:145-174 | of the frames sent under one key, two use the same nonce if and only if they share transmitter and priority and are a multiple of 2^48 frames apart; of fewer than 2^48 no two do |
| `CcmpCode.CcmpKey.constructor` | net80211/ieee80211_crypto_ccmp.c:104-143 | a fresh key is in order, and its block cipher is AES under the 16 key bytes |
| `CcmpCode.CcmpKey.InitBlocks` | net80211/ieee80211_crypto_ccmp.c:283-354 | the CCM state starts from the nonce and additional data of the header |
| `CcmpCode.CcmpKey.Encrypt` | net80211/ieee80211_crypto_ccmp.c:356-377 | the packet becomes header, CCMP header, ciphertext and MIC |
| `CcmpCode.CcmpKey.Encap` | net80211/ieee80211_crypto_ccmp.c:145-174 | the packet number goes up by one and the packet is the sealed frame that Ccmp.RoundTrip is about; with the cipher in hardware only the CCMP header is put in |
| `CcmpCode.CcmpKey.Decrypt` | net80211/ieee80211_crypto_ccmp.c:379-411 | the packet without its MIC is opened in place, and the verdict is that of the MIC |
| `CcmpCode.CcmpKey.Decap` | net80211/ieee80211_crypto_ccmp.c:200-258 | frames without extended IV, with a stale packet number or a wrong MIC are dropped and the counter stays; otherwise counter and packet are what Ccmp.Opened says, for an empty body too; an assertion of ccmp_decrypt fails if and only if a new frame with an empty body comes to a software key |
| `CcmpCode.EmptyBody` | net80211/ieee80211_crypto_ccmp.c:379-411 | a frame with an empty body on which it fails |
| `Rc4.AlwaysPermutation` | net80211/ieee80211_crypto_tkip.c:588-613 | through key setup and any number of key stream bytes the state holds each of 0 .. 255 exactly once |
| `Rc4.SetupSums` | net80211/ieee80211_crypto_tkip.c:588-596 | after n steps of key setup j is the sum modulo 256 of the state bytes met and of the key bytes, the key starting over when it is used up |
| `Rc4.SetupExchanges` | net80211/ieee80211_crypto_tkip.c:588-596 | each step exchanges the state bytes at its number and at j, and no others; at the start every byte has its own position |
| `Rc4.KeyByteEnters` | net80211/ieee80211_crypto_wep.c:325-333 | two keys of one length that agree before a position and differ there lead to equal states before it and different ones behind it |
| `Rc4.KeyRepeats` | net80211/ieee80211_crypto_wep.c:325-333 | a key and the key said twice lead to the same states |
| `Rc4.AfterSums` | net80211/ieee80211_crypto_tkip.c:607-613 | through the stream j is the sum modulo 256 of the state bytes at i, which counts |
| `Rc4.AfterExchanges` | net80211/ieee80211_crypto_tkip.c:607-613 | each step exchanges the state bytes at i and j, and yields the byte at the sum of the two |
| `Rc4.RoundTrip` | net80211/ieee80211_crypto_tkip.c:577-700 | opening what was sealed gives the data back and passes the integrity check, for any CRC table |
| `Rc4.TableDriven` | net80211/ieee80211_crypto_tkip.c:608-608 | with the table of a polynomial, one look-up is eight steps of the CRC register bit by bit |
| `Rc4.CrcCheck` | net80211/ieee80211_crypto_tkip.c:625-630 | with the polynomial of CRC-32, the integrity value of the digits 1 to 9 is the check value 0xCBF43926, lowest byte first |
| `Rc4.Crc32Spreads` | net80211/ieee80211_crypto_wep.c:247-300 | no two entries of the table of CRC-32 share their top byte |
| `Rc4.Crc32Entries` | net80211/ieee80211_crypto_wep.c:247-300 | entries 1, 128 and 255 of the table of CRC-32 |
| `Rc4.AcceptedOnlyIfSealed` | net80211/ieee80211_crypto_tkip.c:638-700 | the check accepts exactly the ciphertexts that sealing some data under that key gives |
| `Rc4.OneByteRefused` | net80211/ieee80211_crypto_tkip.c:638-700 | with such a table, a sealed frame in which any one byte was changed is refused |
| `Rc4.VerdictExactly` | net80211/ieee80211_crypto_tkip.c:638-700 | with last bytes of the frame in its last buffer, the check decides right on every frame and every storage behind it if and only if last is at least 4 |
| `Rc4.StraddlingRefused` | net80211/ieee80211_crypto_tkip.c:638-700 | for fewer than four there is storage with which any sealed frame is refused |
| `Wep.KeySetup` | net80211/ieee80211_crypto_wep.c:325-333 | the array after key setup is the initial state that the lemmas on key setup are about |
| `Wep.CryptSegment` | net80211/ieee80211_crypto_tkip.c:607-613 | the inner loop encrypts or decrypts n bytes in place, moves the state on by n, and the CRC covers the plaintext |
| `Wep.CryptChain` | net80211/ieee80211_crypto_tkip.c:597-622 | over any chain, len bytes from off on are under the key stream and every other byte is kept |
| `Wep.StopsAtIcv` | net80211/ieee80211_crypto_tkip.c:655-697 | when the last buffer holds four bytes, the loop stops right in front of the integrity value |
| `Wep.EncryptAppend` | net80211/ieee80211_crypto_tkip.c:577-636 | the packet becomes the header followed by the sealed data; when buffers run out, failure is reported and the packet is a proper prefix of that |
| `Wep.Decrypt` | net80211/ieee80211_crypto_tkip.c:638-700 | over any chain, the data is opened in place, and the verdict compares the integrity value with the four bytes that the code reads: the end of the frame, or what the last buffer has of it followed by its storage |
| `Wep.SealedInChain` | net80211/ieee80211_crypto_tkip.c:638-700 | a sealed frame in a chain is accepted if and only if those four bytes are its last four |
| `Wep.Straddling` | net80211/ieee80211_crypto_tkip.c:638-700 | for any data, a chain of two buffers that holds its sealed form and is refused |
| `WepKeys.NeverWeak` | net80211/ieee80211_crypto_wep.c:126-188 | no initialization vector of the weak family is ever sent, and only vectors of that family are skipped |
| `WepKeys.SealedParts` | net80211/ieee80211_crypto_wep.c:126-188 | a WEP frame: header, vector, key id, and data with integrity value under RC4, whose key is the vector followed by the key |
| `WepKeys.IvParts` | net80211/ieee80211_crypto_wep.c:126-188 | the vector goes out highest byte first |
| `WepKeys.RoundTrip` | net80211/ieee80211_crypto_wep.c:126-235 | what one side seals the other opens to the same payload, whatever happened to the header |
| `WepKeys.WepKey.constructor` | net80211/ieee80211_crypto_wep.c:93-124 | a fresh key holds the given bytes and initialization vector |
| `WepKeys.WepKey.Encap` | net80211/ieee80211_crypto_wep.c:126-188 | the vector skips weak values, is counted up, and the packet is the sealed frame |
| `WepKeys.WepKey.Decap` | net80211/ieee80211_crypto_wep.c:205-235 | over any chain, the packet is opened and stripped, and the verdict is on the four bytes that the check reads |
| `Michael.HeldPadded` | net80211/ieee80211_crypto_tkip.c:861-868 | the closing marker and zero word turn the words absorbed so far into Michael over the padded data |
| `Michael.UnBlockUndoesBlock` | net80211/ieee80211_crypto_tkip.c:721-731 | the steps of the block function taken back one by one, with rotations and byte swap written out, give the state back |
| `Michael.BlockUndoesUnBlock` | net80211/ieee80211_crypto_tkip.c:721-731 | and the other way round |
| `Michael.BlockAtOne` | net80211/ieee80211_crypto_tkip.c:721-731 | its value at (0, 1) |
| `Michael.MicIsCode` | net80211/ieee80211_crypto_tkip.c:790-872 | the MIC is Michael over pseudo header and data in one message |
| `Michael.CodeOfNothing` | net80211/ieee80211_crypto_tkip.c:790-872 | the test vector of the standard for the empty message |
| `Michael.CodeOfMichael` | net80211/ieee80211_crypto_tkip.c:790-872 | the test vector of the standard for the message "Michael" |
| `Michael.BlockInjective` | net80211/ieee80211_crypto_tkip.c:721-731 | equal results of the block function come from equal states |
| `Michael.MicExactly` | net80211/ieee80211_crypto_tkip.c:790-872 | for any key and data, pseudo headers with the same addresses give the same code if and only if they are equal |
| `Michael.AddressesAre` | net80211/ieee80211_crypto_tkip.c:756-780 | destination and source address by the two distribution system bits |
| `Michael.HeaderIsStandard` | net80211/ieee80211_crypto_tkip.c:756-788 | the pseudo header is that of section 8.3.2.3 of IEEE 802.11-2007 if and only if the frame is not a four-address QoS frame whose address 4 shows another priority |
| `Michael.HeaderIsNotAlwaysStandard` | net80211/ieee80211_crypto_tkip.c:756-788 | a frame on which they differ |
| `MichaelCode.Segment` | net80211/ieee80211_crypto_tkip.c:820-860 | one segment, starting with fewer than four spilled bytes, goes through word by word and leaves fewer than four |
| `MichaelCode.MichaelMic` | net80211/ieee80211_crypto_tkip.c:790-872 | over any chain, empty and split segments included, the walk stays inside the chain if and only if there are as many bytes as asked for, and then the code is Michael over the flattened bytes with their padding |
| `Tkip.NextTsc` | net80211/ieee80211_crypto_tkip.c:874-906 | counting up changes the upper counter half exactly when the lower half wraps |
| `Tkip.Phase1IsStandard` | net80211/ieee80211_crypto_tkip.c:506-525 | phase 1 is forty steps around five words, each getting the S-box of the word before it and a key word, as section 8.3.2.5 of IEEE 802.11-2007 numbers them |
| `Tkip.Phase2IsStandard` | net80211/ieee80211_crypto_tkip.c:531-576 | phase 2 is twelve steps around six words, six with the S-box and six with a rotation, and the seed is made of them byte by byte |
| `Tkip.SIs` | net80211/ieee80211_crypto_tkip.c:497-502 | the S-box of a word: the entry of its lower byte, and that of its upper byte with its bytes exchanged |
| `Tkip.WordsAreNumbers` | net80211/ieee80211_crypto_tkip.c:428-462 | words put together from bytes, taken apart and with bytes exchanged, as numbers |
| `Tkip.RotationsAreNumbers` | net80211/ieee80211_crypto_tkip.c:428-462 | rotation and shift by one bit as numbers |
| `Tkip.Phase1Injective` | net80211/ieee80211_crypto_tkip.c:506-525 | under one key, for any S-box, two phase-1 keys are equal if and only if address and upper counter half are |
| `Tkip.Phase2Injective` | net80211/ieee80211_crypto_tkip.c:531-576 | under one temporal key and any S-box, bytes 4 to 15 of two seeds are equal if and only if phase-1 key and lower counter half are |
| `Tkip.FrameKeyInjective` | net80211/ieee80211_crypto_tkip.c:874-906 | under one temporal key, two frames share their RC4 key if and only if they share transmitter and the low 48 bits of the counter |
| `Tkip.UsedExactly` | net80211/ieee80211_crypto_tkip.c:908-946 | a received frame gets its own phase-1 key if and only if no stale one is cached for its upper counter half |
| `Tkip.ReceiveKeepsGood` | net80211/ieee80211_crypto_tkip.c:319-357 | under any key, one received frame keeps a right cache right if and only if it does not pass its ICV, fail its MIC and have another upper counter half than the receive counter |
| `Tkip.GoodExactly` | net80211/ieee80211_crypto_tkip.c:908-946 | over any frames, the cache is right at every point if and only if no frame does that to the receive counter it meets |
| `Tkip.RunKeepsGood` | net80211/ieee80211_crypto_tkip.c:908-946 | in every run where frames that pass decapsulation pass their MIC check, every frame is decrypted under its own two-phase key |
| `Tkip.MicFailureSpoilsCache` | net80211/ieee80211_crypto_tkip.c:908-946 | under every key, a frame with good ICV and bad MIC from the next counter range leaves a cache that decrypts the range in use under a wrong phase-1 key |
| `TkipCode.MixPhase1` | net80211/ieee80211_crypto_tkip.c:506-525 | the loops in place compute phase 1 of key mixing |
| `TkipCode.IvParts` | net80211/ieee80211_crypto_tkip.c:158-204 | the TKIP header: TSC1, the seed byte, TSC0, key id with the extended IV bit, TSC2 to TSC5 |
| `TkipCode.IvIsSeed` | net80211/ieee80211_crypto_tkip.c:158-204 | the first three bytes of the RC4 key of a frame are the first three of its TKIP header |
| `TkipCode.TkipKey.constructor` | net80211/ieee80211_crypto_tkip.c:116-153 | after attach and setkey nothing is cached, so the cache is right for every transmitter, and the counter is 1 |
| `TkipCode.TkipKey.TxKey` | net80211/ieee80211_crypto_tkip.c:883-890 | the key is both phases computed afresh for the current counter and the address the cache was filled for, which is the given one when the cache is empty; its phase-1 key is that of the given address if and only if nothing was cached or the cache was filled for it |
| `TkipCode.SecondSender` | net80211/ieee80211_crypto_tkip.c:883-890 | a second transmitter address under one key, as soon as it differs from the first, gets the phase-1 key of the first |
| `TkipCode.TkipKey.Encrypt` | net80211/ieee80211_crypto_tkip.c:874-906 | for any transmitter address: the frame is sealed under that key and the counter goes up, or buffers run out and the packet is a proper prefix of that; the cache invariant is kept |
| `TkipCode.TkipKey.Encap` | net80211/ieee80211_crypto_tkip.c:158-204 | refused under countermeasures; otherwise header, extended IV and sealed body, in full exactly when success is reported, for any transmitter address |
| `TkipCode.TkipKey.RxKey` | net80211/ieee80211_crypto_tkip.c:918-928 | for any transmitter address, the key and the cache are those of the receive machine of module Tkip |
| `TkipCode.TkipKey.Decrypt` | net80211/ieee80211_crypto_tkip.c:908-946 | over any chain the body is opened under the key used, the verdict is on the four bytes that the check reads, and a phase-1 key that replaced the cached one is dropped when the frame fails |
| `TkipCode.TkipKey.Decap` | net80211/ieee80211_crypto_tkip.c:244-314 | frames without extended IV, under countermeasures or replayed are dropped with the cache untouched; otherwise opened and stripped |
| `TkipCode.TkipKey.Enmic` | net80211/ieee80211_crypto_tkip.c:209-229 | Michael of header and payload is appended when it is due |
| `TkipCode.TkipKey.Demic` | net80211/ieee80211_crypto_tkip.c:319-357 | for any chain and any length field: michael_mic stays inside the chain if and only if the length covers header and MIC and is at most eight bytes too large; the packet is accepted exactly when the eight bytes read are Michael of the data that the length calls for; then eight bytes are cut off, the length is right again and the receive counter moves up |
| `TkipCode.MicIsLast` | net80211/ieee80211_crypto_tkip.c:319-357 | with a right length the verdict is on the last eight bytes, whatever was on the stack |
| `TkipCode.TooLongRefused` | net80211/ieee80211_crypto_tkip.c:319-357 | with a length that is too large there is a stack content on which any frame is refused |
| `TkipCode.RoundTrip` | net80211/ieee80211_crypto_tkip.c:158-314 | a frame sealed by one side is opened by a receiver with a right cache: counter, body and verdict |
| `TkipCode.TscIncreases` | net80211/ieee80211_crypto_tkip.c:244-357 | over any arrivals, the counters of the frames that pass decapsulation and MIC check strictly increase |
| `TkipCode.EndToEnd` | net80211/ieee80211_crypto_tkip.c:158-357 | from MIC and encapsulation on one side to decapsulation and MIC check on the other, under a right cache: header and payload come back if and only if the frame is no replay and both headers give the same MIC, which with equal addresses is if and only if they have the same priority |
| `Fragment.FragmentFits` | net80211/ieee80211_output.c:912-999 | every fragment together with the cipher header fits the mtu |
| `Fragment.FragmentParts` | net80211/ieee80211_output.c:912-999 | every byte of every fragment: more-fragments bit, fragment number, header, and which stretch of the payload |
| `Fragment.RoundTrip` | net80211/ieee80211_output.c:912-999 | fed in order to a node that holds nothing, the fragments come back as one frame with the addresses of the original; its payload is the original if and only if there are at most 16 fragments, and is shorter otherwise |
| `Fragment.SeventeenFragments` | net80211/ieee80211_output.c:912-999 | a frame cut into 17 fragments that comes back too short |
| `FragmentCode.Fragment` | net80211/ieee80211_output.c:912-999 | the loop ends with exactly these fragments: the first in the frame itself, the others new packets of one buffer each, apart from each other, with space in front for a cipher header; without enough buffers it fails and the frame is whole but for the more-fragments bit |
| `Frags.StepIsDefrag` | net80211/ieee80211_input.c:771-865 | the machine that tracks pieces holds and returns what reassembly of the bytes holds and returns |
| `Frags.FieldsAre` | net80211/ieee80211_input.c:771-865 | the fields that reassembly reads: bit 2 of the second byte, the sequence control at 22, the addresses at 4 and 10 |
| `Frags.RunInv` | net80211/ieee80211_input.c:771-865 | in every run, with any arrivals, a returned frame joins received pieces that start at fragment 0, have consecutive sequence control values and equal addresses, and announce more except the last; every piece is held, returned or freed exactly once |
| `Frags.StepFrees` | net80211/ieee80211_input.c:771-865 | an arriving fragment frees the pieces held exactly when it does not go on with them; it is itself freed exactly when the node is in no table or it neither goes on nor starts a frame, but never when it is a whole frame and nothing is held |
| `Frags.SameFrame` | net80211/ieee80211_input.c:771-865 | pieces of such a run have the sequence number of the first if and only if they are among its first sixteen |
| `DefragCode.Cat` | port/net/embox/bsd_mbuf.c:258-271 | the chains are joined; the new bytes are counted twice if and only if the first chain is a single buffer |
| `DefragCode.Concatenate` | net80211/ieee80211_input.c:841-855 | the payload goes behind the frame held, whose sequence control becomes that of the fragment |
| `DefragCode.Station.Defrag` | net80211/ieee80211_input.c:771-865 | on buffer chains, what is returned, held and freed is what the piece machine says; every buffer is held, returned or freed exactly once; the length of a returned packet is too large by the payload of the second piece if the first had one buffer, so it is right if and only if it is one piece, or its first piece had several buffers, or its second no payload |
| `DefragCode.Station.Reap` | net80211/ieee80211_node.c:1985-1993 | a fragment held too long is freed, buffer by buffer |
| `DefragCode.TwoFragments` | net80211/ieee80211_input.c:771-865 | two fragments of one buffer each that come back with a wrong packet length |
| `Receive.GenuineExactly` | net80211/ieee80211_input.c:290-310 | a genuine frame that reassembly made of some pieces always passes its MIC check if and only if its length is right; with more than eight bytes too many the check leaves the chain |
| `Receive.LeavesChain` | net80211/ieee80211_input.c:290-310 | two fragments of one buffer each on which it does, under any key with the MIC in software |
| `Receive.BareHeader` | net80211/ieee80211_crypto_tkip.c:319-357 | a frame without body, whose data length wraps: the check leaves the chain |
| `Rates.RemainingPermuted` | net80211/ieee80211_proto.c:348-450 | the rates kept depend on which were received, not on their order |
| `RatesCode.RateSet.FixRate` | net80211/ieee80211_proto.c:348-450 | for every combination of flags: the set in place becomes what remains of the rates visited, a permutation of those received, ascending when sorting; ni_txrate, and success or the rate reported, follow from the visit |
| `RatesCode.Negotiated` | net80211/ieee80211_proto.c:348-450 | with sort, negotiate and delete: ascending, exactly the received rates that are supported, each with the local basic bit, the top one in use; the call fails exactly in the intended cases, or when the only rate in common has value zero and is not basic, or when the fixed rate has value zero |
| `RatesCode.FailsAsMeant` | net80211/ieee80211_proto.c:348-450 | without a local rate of value zero, it fails if and only if no received rate is supported, an access point got an unsupported basic rate, or the fixed rate is missing |
| `RatesCode.ZeroRateFails` | net80211/ieee80211_proto.c:442-447 | a supported rate of value zero is kept, yet the call fails |
| `RatesCode.IsErp` | net80211/ieee80211_proto.c:503-527 | on a sorted set the early exits find all seven required rates exactly when they are all there |
| `RatesCode.TooFew` | net80211/ieee80211_proto.c:503-527 | a set of fewer than seven rates lacks one of them, so the first test of the code is right |
| `Elements.WalkPrint` | net80211/ieee80211_input.c:2597-2624 | the element loop visits exactly the elements that were printed |
| `Elements.PrintWalk` | net80211/ieee80211_input.c:2597-2624 | printing what the loop visited gives the bytes back, up to a single last byte |
| `Elements.ScanElements` | net80211/ieee80211_input.c:2597-2624 | for any bytes the loop fails exactly when an element is cut off; otherwise the last rates and the last extended rates element are found |
| `Elements.RatesRoundTrip` | net80211/ieee80211_output.c:1004-1035 | any set of at most 15 rates, printed among other elements, comes back from the element loop and ieee80211_setup_rates |
| `Elements.RateElements` | net80211/ieee80211_output.c:1004-1035 | the bytes of the two rate elements: number 1 with up to eight rates, number 50 with the rest |
| `Elements.NoFlags` | net80211/ieee80211_proto.c:348-450 | without flags ieee80211_fix_rate changes no rate |
| `ElementsCode.AddRates` | net80211/ieee80211_output.c:1004-1016 | the bytes in front of the cursor are kept and the element with the first eight rates follows |
| `ElementsCode.AddXrates` | net80211/ieee80211_output.c:1021-1035 | the rest of the rates follows as a second element, or nothing |
| `ElementsCode.SetupRates` | net80211/ieee80211_input.c:1057-1095 | the set becomes the rates of both elements, never more than fit, fixed as ieee80211_fix_rate does |
| `Rsn.DecodeEncode` | net80211/ieee80211_output.c:1156-1237 | decoding the body of an encoded RSN element gives its fields back |
| `Rsn.EncodeDecode` | net80211/ieee80211_input.c:1810-1918 | encoding what was decoded gives the body back |
| `Rsn.ParseRsn` | net80211/ieee80211_input.c:1810-1918 | on any element the parser stays within it, its length never wraps, and it accepts and stores what the decoded fields call for, also what it stored before a refusal |
| `Rsn.StoredIsParse` | net80211/ieee80211_input.c:1810-1918 | the stores of the parser are those of an accepted element; before a refusal at most key lengths and the pairwise cipher were stored |
| `Rsn.SetupRsn` | net80211/ieee80211_output.c:1156-1237 | for any group cipher the element built is the encoding of its entry in the table of suites, or of what lies behind the table, of our pairwise ciphers, key management suites and capabilities, and its length byte is right |
| `Rsn.CcmpElement` | net80211/ieee80211_output.c:1156-1237 | for CCMP with a pre-shared key the element built is these 22 bytes, and a peer with the same parameters accepts it and keeps them |
| `Rsn.OursIsAccepted` | net80211/ieee80211_input.c:1810-1918 | a peer with the same parameters accepts our element if and only if the group cipher is WEP, TKIP, OCB or CCMP, or none with its selector behind the table by chance, and it offers a pairwise cipher and a key management suite; it then chooses the ones stated |
| `Rsn.NoneRefused` | net80211/ieee80211_output.c:1156-1237 | parameters with group cipher none under which our own element is refused |
| `Rsn.CapsReadExactly` | net80211/ieee80211_input.c:1912-1914 | capabilities in an accepted element are what is stored if and only if more bytes follow them or they were stored already |
| `Rsn.CapsLost` | net80211/ieee80211_input.c:1912-1914 | an accepted element whose capabilities are lost |
| `NodeTab.LookupExact` | net80211/ieee80211_node.c:1143-1167 | lookup by address through the hash chains succeeds if and only if the list holds a node with that address |
| `NodeTab.SetupInv` | net80211/ieee80211_node.c:1034-1062 | a new node enters list and chain with one reference for the table |
| `NodeTab.FindKeyInv` | net80211/ieee80211_node.c:1461-1511 | lookup with a key hint returns the node of the hint, a node of the table with that address, or the BSS node, with one more holder; list and other holders are unchanged |
| `NodeTab.ReleaseInv` | net80211/ieee80211_node.c:1737-1780 | releasing a held reference frees the node if and only if it was the last claim, and no other node |
| `NodeTab.ReclaimInv` | net80211/ieee80211_node.c:1836-1875 | reclaiming takes a node out of list, chains and key map; it is freed if and only if nobody holds it |
| `NodeTab.DelKeyInv` | net80211/ieee80211_node.c:1785-1829 | every key map entry of the node is emptied and no other, the count goes down by one exactly when there was one, and the node is freed if and only if that was its last claim |
| `NodeTab.InEveryRun` | net80211/ieee80211_node.c:1034-1875 | from an empty table, over any events, the count of a node is its table membership plus its key map entry plus its holders and never zero, and lookup is exact |
| `NodeTab.InSetupOrder` | net80211/ieee80211_node.c:1034-1062 | in every run the list is in the order in which its nodes were set up, and every hash chain in the opposite order |
| `NodeTab.LookupNewest` | net80211/ieee80211_node.c:1143-1167 | in every run, of several nodes with one address lookup finds the one set up last |
| `NodeTab.GoesWithLastClaim` | net80211/ieee80211_node.c:1034-1875 | after any run, one more event makes a node disappear if and only if it gives up the last claim to it, and which events those are |
| `NodeCode.NodeTable.DecTestRef` | net80211/ieee80211_netbsd.c:528-536 | the count goes down; at zero it goes back to one and the caller is told |
| `NodeCode.NodeTable.DoSetup` | net80211/ieee80211_node.c:1034-1062 | the operation on lists and counts, keeping the invariant |
| `NodeCode.NodeTable.Find` | net80211/ieee80211_node.c:1143-1167 | walking the chain finds what lookup says and takes a reference |
| `NodeCode.NodeTable.FindWithKey` | net80211/ieee80211_node.c:1461-1511 | the hint is used when it is good, otherwise the address, otherwise the BSS node; a node without an entry is entered in the key map if its index is free |
| `NodeCode.NodeTable.FreeNode` | net80211/ieee80211_node.c:1716-1733 | the node leaves its table, if it is in one, and is gone |
| `NodeCode.NodeTable.DoRelease` | net80211/ieee80211_node.c:1737-1780 | the operation with its branches, keeping the invariant |
| `NodeCode.NodeTable.DoReclaim` | net80211/ieee80211_node.c:1836-1875 | the operation with its branches, keeping the invariant |
| `NodeCode.NodeTable.DoDelKey` | net80211/ieee80211_node.c:1785-1829 | the operation with its branches, keeping the invariant |
| `Iterate.NodeList.IterateNodes` | net80211/ieee80211_node.c:2101-2131 | for a callback that may remove nodes: it ends, calls no node twice, only nodes present at the start and not removed before, and every node present at the start unless it was removed |
| `Assoc.NewAid` | net80211/ieee80211_node.c:2235-2239 | the search returns a free id between 1 and max - 1, or max when all of them are taken |
| `Assoc.RefusedOnlyWhenFull` | net80211/ieee80211_node.c:2222-2275 | a station is refused if and only if all ids are held by stations |
| `Assoc.JoinAids` | net80211/ieee80211_node.c:2222-2275 | joining keeps ids distinct and the bitmap equal to the ids held |
| `Assoc.JoinCounts` | net80211/ieee80211_node.c:2168-2220 | joining keeps the station, long-slot and non-ERP counters equal to the numbers of such stations, up to what earlier reassociations added or took |
| `Assoc.LeaveCounts` | net80211/ieee80211_node.c:2280-2400 | leaving keeps them too, and the counters taken down are above zero |
| `Assoc.ReassocExactly` | net80211/ieee80211_node.c:2280-2337 | taking over slot capability and rates from an associated station keeps the counters right if and only if neither changed |
| `Assoc.CountsExactly` | net80211/ieee80211_node.c:2168-2400 | over any events, all counters are the numbers of such stations, by their rates, at every point if and only if no reassociation changes slot capability or rates |
| `Assoc.BogusCount` | net80211/ieee80211_node.c:2280-2337 | a run after which a long-slot station is associated and the long-slot count is zero |
| `Assoc.InEveryRun` | net80211/ieee80211_node.c:2168-2400 | from an empty access point, over any events, reassociation included, ids are distinct and in range, the bitmap is exactly the ids held, and the station counter is the number of stations associated |
| `AssocCode.AccessPoint.SearchAid` | net80211/ieee80211_node.c:2235-2239 | the loop over the bitmap finds the id that NewAid promises |
| `AssocCode.AccessPoint.NewStation` | net80211/ieee80211_input.c:2711-2739 | a station enters with its slot capability and rates, without an id; the counters stay |
| `AssocCode.AccessPoint.Join11g` | net80211/ieee80211_node.c:2168-2220 | counters, ERP flag of the station, protection and short slot flags after a join |
| `AssocCode.AccessPoint.NodeJoin` | net80211/ieee80211_node.c:2222-2275 | the whole join step, refusal included; a station that has an id keeps it and nothing changes |
| `AssocCode.AccessPoint.TakeOver` | net80211/ieee80211_input.c:2711-2739 | taking over slot capability and rates; the counters stay right if and only if neither changed |
| `AssocCode.AccessPoint.Leave11g` | net80211/ieee80211_node.c:2280-2337 | counters and flags after a leave |
| `AssocCode.AccessPoint.NodeLeave` | net80211/ieee80211_node.c:2343-2400 | the whole leave step; the id is given back |
| `PowerSave.SetTimCounts` | net80211/ieee80211_node.c:2453-2479 | setting or clearing a bit keeps the pending count equal to the number of bits set |
| `PowerSave.QueueInv` | net80211/ieee80211_node.c:2453-2479 | a queue and its bit changing together keep all stations in step |
| `PowerSave.InOrder` | net80211/ieee80211_output.c:2123-2166 | over any run, the frames saved for a station, in order, are those sent, expired or freed so far, followed by those that wait |
| `PowerSave.QueueBound` | net80211/ieee80211_output.c:2123-2136 | no queue ever holds more than 50 frames |
| `PowerSave.SavedAge` | net80211/ieee80211_netbsd.h:131-142 | a frame saved with an age expires after that age if and only if at most one frame waits, or those before the last expire at once |
| `PowerSave.ThirdStaysTwice` | net80211/ieee80211_netbsd.h:131-142 | three frames saved for 20 seconds, of which the third stays 40 |
| `PowerSave.YoungExpires` | net80211/ieee80211_node.c:2011-2038 | ageing takes 15 seconds off every frame that stays, and the ages of the frames that expired besides |
| `PowerSave.LeaveInv` | net80211/ieee80211_node.c:2343-2400 | a leave keeps the others in step; its bit is left behind when frames were waiting |
| `PowerSave.JoinInv` | net80211/ieee80211_node.c:2222-2275 | a new station is in step, but for a bit left behind for its id |
| `PowerSave.LeftBehindExactly` | net80211/ieee80211_node.c:2343-2400 | over any events, at every point every bit is set exactly when frames wait for the station with its id, if and only if every station leaves with an empty queue |
| `PowerSave.StaleBit` | net80211/ieee80211_node.c:2343-2400 | a run after which a station without frames has its bit set |
| `PowerSave.InEveryRun` | net80211/ieee80211_node.c:2453-2479 | in every run of saving, polling, waking, ageing, joining and leaving, the count is that of the bits set, and the bit of a station is set if and only if frames wait for it or one was left behind for its id |
| `PowerSaveCode.TimAp.DoSetTim` | net80211/ieee80211_node.c:2453-2479 | bit and count as SetTim says; the update flag is raised exactly when a bit changes |
| `PowerSaveCode.TimAp.PwrSave` | net80211/ieee80211_output.c:2123-2166 | the frame goes behind those that wait, unless there are 50, and the first one sets the bit |
| `PowerSaveCode.TimAp.RecvPsPoll` | net80211/ieee80211_input.c:3160-3226 | the frame that waited longest is sent, with more-data exactly when others wait; the last one clears the bit; a poll with another id changes nothing |
| `PowerSaveCode.TimAp.WakeUp` | net80211/ieee80211_input.c:3092-3155 | all frames go out in the order they were saved, each but the last announcing more, and the bit is cleared |
| `PowerSaveCode.TimAp.AgeQueue` | net80211/ieee80211_node.c:2011-2038 | expired frames at the head are dropped, those and no others; the age of the new head goes down, and the bit is cleared when nothing is left |
| `PowerSaveCode.TimAp.NodeJoin` | net80211/ieee80211_node.c:2222-2275 | a station joins under a free id with an empty queue; a bit left behind for the id stays |
| `PowerSaveCode.TimAp.NodeLeave` | net80211/ieee80211_node.c:2343-2400 | the queue is drained after the id was set to zero, so the bit of the station stays |
| `Beacon.WindowCovers` | net80211/ieee80211_output.c:2062-2077 | every byte outside the window that the scans find is zero |
| `Beacon.UpdateExactly` | net80211/ieee80211_output.c:2044-2099 | all stations read their bits right after an update if and only if the length changed, the offset stayed, or nothing is pending |
| `Beacon.ReadExactly` | net80211/ieee80211_output.c:2044-2099 | after any sequence of updates, all stations read their bits right if and only if the window starts where it did when its length last changed, or nothing is pending |
| `Beacon.MovedWindow` | net80211/ieee80211_output.c:2044-2099 | frames for station 1, then for station 17 instead: station 17 does not see its bit |
| `Beacon.SentinelExactly` | net80211/ieee80211_output.c:2062-2069 | the empty-bitmap assertion fires on a bitmap that is not empty if and only if its first byte in use is number 128 or 129; never with at most 128 bytes |
| `Beacon.SentinelFires` | net80211/ieee80211_output.c:2062-2069 | a bitmap of 129 bytes with one bit set on which it fires |
| `Beacon.BeaconFrame.UpdateTim` | net80211/ieee80211_output.c:2044-2099 | the scans end; the window is in place, at an even offset, and what follows the element is kept |
| `Tim.StationsReadTheirBit` | net80211/ieee80211_output.c:2044-2099 | in every power-save run, an update that changes the length, keeps the offset or has nothing pending tells each station exactly whether frames wait for it or a bit was left behind for its id |
| `Tim.BeaconsTell` | net80211/ieee80211_output.c:2044-2099 | beacons updated at any points of a power-save run in which stations leave with empty queues: every station reads exactly whether frames wait for it if and only if the window starts where it did when its length last changed, or nothing is pending |
| `Tim.UpdateBeacon` | net80211/ieee80211_output.c:2044-2099 | whether or not the flag was set, the element is then that of one more update with the current bitmap, offset and length included; the flag is clear and what follows the element is kept |

## Left out

- Wep.Decrypt: asks that the four bytes the check reads lie in the last buffer's storage, as the code does not look; `WepKeys.WepKey.Decap` and `TkipCode.TkipKey.Decap` ask the same.
- Rsn.ParseRsn: a suite that is not known shifts 1 by 32, which C leaves undefined; the model takes the bit as discarded, as the comment at net80211/ieee80211_input.c:1779 means it.
- Tim.UpdateBeacon: asks that the assertion on an empty bitmap does not fire; `Beacon.SentinelExactly` says when it does.
- CcmpCode.CcmpKey.Decap: asks for at most 65535 blocks of payload, beyond which aes_ccm_inc panics.
- CcmpCode.CcmpKey.Encap: with the cipher in software it asks for a non-empty payload, as the buffer walk asserts that a buffer holds its first byte.
- TkipCode.TkipKey.Demic: is about data frames, whose QoS control lies in the header, with the header in one buffer and fewer than 2^32 bytes, as its callers pass them; `TkipCode.TkipKey.Enmic` is too.
- NodeTab.InEveryRun: a node is given a key index only when no other node has it and its own key map entry is gone; otherwise the assertion of ieee80211_node_delucastkey would fail.
- Iterate.NodeList.IterateNodes: assumes that the generation counter does not wrap and that callbacks add no nodes and start no iteration.
- The chain of mbufs is a sequence of objects instead of a linked list; m_pullup and m_prepend are not modelled.
- The bitmaps of association ids and of the TIM are modelled bit by bit, not as words with shifts.
- Nodes are named by ids instead of pointers; locks are atomic steps of the machines.
- The CRC and S-box tables of TKIP and WEP are arbitrary fixed tables; what holds of the table of CRC-32 is stated for the one made from its polynomial, not for the 256 literals of the source.
- Choice of the key and insertion of the cipher header (ieee80211_crypto_encap and ieee80211_crypto_decap) are preconditions of the ciphers: they would add field selection only.
- The WPA element (ieee80211_setup_wpa_ie, ieee80211_parse_wpa): the same shape as the RSN element.
- Flags for Barker preamble, short preamble and ERP reset follow the 11g counters and are not modelled beyond protection and short slot.
- How the age of a saved frame is computed from the listen interval is not modelled; it is a parameter.
- ieee80211_free_allnodes and table teardown, statistics, debug output, notifications and timers.
- AES-CBC and AES-XTS, the scan and state machines, ioctl, sysctl, ACL and rate adaptation.
