/** The stream of aes_ccm.c against one-shot CCM of RFC 3610. */
module CcmRfc {
  import opened Blocks
  import opened Ccm
  import opened CcmStream
  import opened Mbufs

  /** The one length whose encoding differs: 2^32 - 1 takes ten bytes where section 2.2 takes six. */
  const ODD_LENGTH: nat := 0xFFFF_FFFF

  lemma AadLengthIsRfc(n: nat)
    ensures CodeAadLength(n) == AadLength(n) <==> n != ODD_LENGTH
  {
    hide Be16;
    if n == ODD_LENGTH {
      assert CodeAadLength(n)[1] == 0xFF && AadLength(n)[1] == 0xFE;
    }
  }

  /** The additional data enters the authenticator as section 2.2 says, except at that length. */
  lemma AadIsRfc(aad: seq<byte>)
    ensures CodeAadBlocks(aad) == AadBlocks(aad) <==> |aad| != ODD_LENGTH
  {
    hide CodeAadLength; hide AadLength;
    AadLengthIsRfc(|aad|);
    if |aad| == ODD_LENGTH {
      assert CodeAadLength(|aad|)[1] == 0xFF && AadLength(|aad|)[1] == 0xFE by { OddLength(); }
      assert CodeAadBlocks(aad)[1] == 0xFF && AadBlocks(aad)[1] == 0xFE;
    }
  }

  lemma OddLength()
    ensures CodeAadLength(ODD_LENGTH)[1] == 0xFF && AadLength(ODD_LENGTH)[1] == 0xFE
  {
    hide Be16;
  }

  /** The tag of aes_ccm_tag is the tag of sections 2.2 and 2.3. */
  lemma TagIsRfc(e: Cipher, m: nat, nonce: seq<byte>, aad: seq<byte>, msg: seq<byte>)
    requires |nonce| == 13 && TagSize(m) && |aad| != ODD_LENGTH
    ensures TagAfter(e, m, Start(e, m, nonce, aad, |msg|), nonce, msg) == Tag(e, m, nonce, aad, msg)
  {
    hide B0; hide CbcMac; hide CodeAadBlocks; hide AadBlocks; hide Xor; hide CounterBlock; hide Pad16;
    AadIsRfc(aad);
    CbcMacConcat(e, e(B0(m, nonce, aad != [], |msg|)), AadBlocks(aad), Pad16(msg));
  }

  /** What successive calls of aes_ccm_enc or aes_ccm_dec write, when the first starts at `at`. */
  function Pieces(e: Cipher, nonce: seq<byte>, at: nat, chunks: seq<seq<byte>>): seq<seq<byte>>
    requires |nonce| == 13
    decreases chunks
  {
    if chunks == [] then []
    else [Crypt(e, nonce, at, chunks[0])] + Pieces(e, nonce, at + |chunks[0]|, chunks[1..])
  }

  /** However the message is cut, empty pieces included, the joined output is that of one call. */
  lemma {:induction false} AnyCutJoins(e: Cipher, nonce: seq<byte>, at: nat, chunks: seq<seq<byte>>)
    requires |nonce| == 13
    ensures Flat(Pieces(e, nonce, at, chunks)) == Crypt(e, nonce, at, Flat(chunks))
    decreases chunks
  {
    hide Crypt;
    if chunks == [] {
      assert Crypt(e, nonce, at, []) == [];
    } else {
      var p := Pieces(e, nonce, at, chunks);
      assert p[1..] == Pieces(e, nonce, at + |chunks[0]|, chunks[1..]);
      AnyCutJoins(e, nonce, at + |chunks[0]|, chunks[1..]);
      CryptConcat(e, nonce, at, chunks[0], Flat(chunks[1..]));
    }
  }

  /** Decrypting under any cutting what was encrypted under any other gives the plaintext back. */
  lemma CutsUndone(e: Cipher, nonce: seq<byte>, sent: seq<seq<byte>>, received: seq<seq<byte>>)
    requires |nonce| == 13 && Flat(received) == Flat(Pieces(e, nonce, 0, sent))
    ensures Flat(Pieces(e, nonce, 0, received)) == Flat(sent)
  {
    hide Crypt; hide Flat; hide Pieces;
    AnyCutJoins(e, nonce, 0, sent);
    AnyCutJoins(e, nonce, 0, received);
    CryptTwice(e, nonce, 0, Flat(sent));
  }

  // ---------------------------------------------------------------------------
  // Packet vector 1 of section 8 of RFC 3610

  const NONCE: seq<byte> := [0x00, 0x00, 0x00, 0x03, 0x02, 0x01, 0x00, 0xA0, 0xA1, 0xA2, 0xA3, 0xA4, 0xA5]

  const DATA8: seq<byte> := [0x00, 0x01, 0x02, 0x03, 0x04, 0x05, 0x06, 0x07]

  lemma SmallBytes()
    ensures Byte(0) == 0 && Byte(1) == 1 && Byte(8) == 8 && Byte(0x17) == 0x17 && Byte(0x59) == 0x59
  {
    hide Byte;
    assert Value(0) == 0 && Value(1) == 1 && Value(8) == 8 && Value(0x17) == 0x17 && Value(0x59) == 0x59;
    ValueBack(0); ValueBack(1); ValueBack(8); ValueBack(0x17); ValueBack(0x59);
  }

  /** Its first CBC-MAC block, the block with its 8 bytes of additional data, and its first key stream block: tags of 8
      bytes, 23 bytes of message. */
  lemma PacketVector1()
    ensures B0(8, NONCE, true, 23) == [0x59] + NONCE + [0x00, 0x17]
    ensures AadBlocks(DATA8) == [0x00, 0x08] + DATA8 + [0, 0, 0, 0, 0, 0]
    ensures CounterBlock(NONCE, 1) == [0x01] + NONCE + [0x00, 0x01]
  {
    hide Byte;
    SmallBytes();
  }

  /** The message is encrypted from block 1 of the key stream on, and the tag under block 0. */
  lemma StreamStarts(e: Cipher, x: byte, aad: seq<byte>, msg: seq<byte>)
    ensures |[0x01] + NONCE + [0x00, 0x00]| == 16 == |[0x01] + NONCE + [0x00, 0x01]|
    ensures Crypt(e, NONCE, 0, [x]) == [XorByte(x, e([0x01] + NONCE + [0x00, 0x01])[0])]
    ensures Tag(e, 8, NONCE, aad, msg) == Xor(Mac(e, 8, NONCE, aad, msg)[..8], e([0x01] + NONCE + [0x00, 0x00]))
  {
    hide Byte; hide XorByte; hide Mac; hide Xor;
    SmallBytes();
    assert CounterBlock(NONCE, 0) == [0x01] + NONCE + [0x00, 0x00];
    assert CounterBlock(NONCE, 1) == [0x01] + NONCE + [0x00, 0x01];
  }
}
