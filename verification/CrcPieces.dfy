/** Messages that reach a check in pieces: a first call, then one update for every further piece. */
module CrcPieces {
  import opened CrcSpec
  import opened CrcConsequences
  import opened FastCrc

  /** A piece of a message, and where it lies in memory. */
  datatype Piece = Piece(data: seq<Octet>, address: nat)

  function Message(pieces: seq<Piece>): seq<Octet> {
    if pieces == [] then [] else Message(pieces[..|pieces| - 1]) + pieces[|pieces| - 1].data
  }

  /** What every check is left with after a first call and `i` updates: the register and the value last
      returned are those of the message so far. */
  ghost predicate SoFar(c: Check, init: Word, xorout: Word, first: Piece, rest: seq<Piece>, i: nat, seed: Word,
                        crc: Word)
    requires ValidCheck(c) && |init| == |xorout| == |c.poly|
  {
    && i <= |rest| && |seed| == |c.poly|
    && Updated(c, init, first.data + Message(rest[..i]), seed, xorout, crc)
  }

  lemma Begun(c: Check, init: Word, xorout: Word, first: Piece, rest: seq<Piece>, seed: Word, crc: Word)
    requires ValidCheck(c) && |init| == |xorout| == |seed| == |c.poly|
    requires Updated(c, init, first.data, seed, xorout, crc)
    ensures SoFar(c, init, xorout, first, rest, 0, seed, crc)
  {
    hide Updated;
    assert first.data + Message(rest[..0]) == first.data;
  }

  /** An update carries on from the register the calls before it left. */
  lemma Continued(c: Check, init: Word, xorout: Word, first: Piece, rest: seq<Piece>, i: nat, seed: Word, last: Word,
                  after: Word, crc: Word)
    requires ValidCheck(c) && |init| == |xorout| == |after| == |c.poly| && i < |rest|
    requires SoFar(c, init, xorout, first, rest, i, seed, last) && Updated(c, seed, rest[i].data, after, xorout, crc)
    ensures SoFar(c, init, xorout, first, rest, i + 1, after, crc)
  {
    hide Held, Divide, SwapBytes;
    var a, b := first.data + Message(rest[..i]), rest[i].data;
    assert rest[..i + 1][..i] == rest[..i];
    assert first.data + Message(rest[..i + 1]) == a + b;
    assert EnterAll(c, a + b) == EnterAll(c, a) + EnterAll(c, b);
    DivideSplit(c.poly, Held(c, init), EnterAll(c, a), EnterAll(c, b));
  }

  /** After the last piece the value returned is the check of the whole message. */
  lemma Whole(c: Check, init: Word, xorout: Word, first: Piece, rest: seq<Piece>, seed: Word, crc: Word)
    requires ValidCheck(c) && |init| == |xorout| == |c.poly| && (init == Zeros(|init|) || init == Ones(|init|))
    requires |init| == 16 || |init| == 32
    requires SoFar(c, init, xorout, first, rest, |rest|, seed, crc)
    ensures crc == Catalogue(c, init, xorout, first.data + Message(rest))
  {
    hide Held, Updated, Catalogue, Zeros, Ones;
    assert rest[..|rest|] == rest;
    HeldUniform(c, |init|);
    FirstCall(c, init, first.data + Message(rest), seed, xorout, crc);
  }

  /** The register is swapped in what is returned only. */
  method CcittInPieces(fast: FastCRC16, first: Piece, rest: seq<Piece>) returns (crc: Word)
    modifies fast
    ensures crc == Catalogue(CcittCheck(), Ones(16), Zeros(16), first.data + Message(rest))
  {
    hide Updated, SoFar, Catalogue, Hex16, Zeros, Ones, Message;
    crc := fast.Ccitt(first.data, first.address);
    Begun(CcittCheck(), Ones(16), Zeros(16), first, rest, fast.seed, crc);
    for i := 0 to |rest|
      invariant fast.Valid() && SoFar(CcittCheck(), Ones(16), Zeros(16), first, rest, i, fast.seed, crc)
    {
      ghost var seed, last := fast.seed, crc;
      crc := fast.CcittUpd(rest[i].data, rest[i].address);
      Continued(CcittCheck(), Ones(16), Zeros(16), first, rest, i, seed, last, fast.seed, crc);
    }
    Whole(CcittCheck(), Ones(16), Zeros(16), first, rest, fast.seed, crc);
  }

  /** The register is swapped in what is returned only. */
  method XmodemInPieces(fast: FastCRC16, first: Piece, rest: seq<Piece>) returns (crc: Word)
    modifies fast
    ensures crc == Catalogue(XmodemCheck(), Zeros(16), Zeros(16), first.data + Message(rest))
  {
    hide Updated, SoFar, Catalogue, Hex16, Zeros, Ones, Message;
    crc := fast.Xmodem(first.data, first.address);
    Begun(XmodemCheck(), Zeros(16), Zeros(16), first, rest, fast.seed, crc);
    for i := 0 to |rest|
      invariant fast.Valid() && SoFar(XmodemCheck(), Zeros(16), Zeros(16), first, rest, i, fast.seed, crc)
    {
      ghost var seed, last := fast.seed, crc;
      crc := fast.XmodemUpd(rest[i].data, rest[i].address);
      Continued(XmodemCheck(), Zeros(16), Zeros(16), first, rest, i, seed, last, fast.seed, crc);
    }
    Whole(XmodemCheck(), Zeros(16), Zeros(16), first, rest, fast.seed, crc);
  }

  /** The register is what is returned. */
  method KermitInPieces(fast: FastCRC16, first: Piece, rest: seq<Piece>) returns (crc: Word)
    modifies fast
    ensures crc == Catalogue(KermitCheck(), Zeros(16), Zeros(16), first.data + Message(rest))
  {
    hide Updated, SoFar, Catalogue, Hex16, Zeros, Ones, Message;
    crc := fast.Kermit(first.data, first.address);
    Begun(KermitCheck(), Zeros(16), Zeros(16), first, rest, fast.seed, crc);
    for i := 0 to |rest|
      invariant fast.Valid() && SoFar(KermitCheck(), Zeros(16), Zeros(16), first, rest, i, fast.seed, crc)
    {
      ghost var seed, last := fast.seed, crc;
      crc := fast.KermitUpd(rest[i].data, rest[i].address);
      Continued(KermitCheck(), Zeros(16), Zeros(16), first, rest, i, seed, last, fast.seed, crc);
    }
    Whole(KermitCheck(), Zeros(16), Zeros(16), first, rest, fast.seed, crc);
  }

  /** The register is what is returned. */
  method ModbusInPieces(fast: FastCRC16, first: Piece, rest: seq<Piece>) returns (crc: Word)
    modifies fast
    ensures crc == Catalogue(ModbusCheck(), Ones(16), Zeros(16), first.data + Message(rest))
  {
    hide Updated, SoFar, Catalogue, Hex16, Zeros, Ones, Message;
    crc := fast.Modbus(first.data, first.address);
    Begun(ModbusCheck(), Ones(16), Zeros(16), first, rest, fast.seed, crc);
    for i := 0 to |rest|
      invariant fast.Valid() && SoFar(ModbusCheck(), Ones(16), Zeros(16), first, rest, i, fast.seed, crc)
    {
      ghost var seed, last := fast.seed, crc;
      crc := fast.ModbusUpd(rest[i].data, rest[i].address);
      Continued(ModbusCheck(), Ones(16), Zeros(16), first, rest, i, seed, last, fast.seed, crc);
    }
    Whole(ModbusCheck(), Ones(16), Zeros(16), first, rest, fast.seed, crc);
  }

  /** The register is inverted in what is returned only. */
  method X25InPieces(fast: FastCRC16, first: Piece, rest: seq<Piece>) returns (crc: Word)
    modifies fast
    ensures crc == Catalogue(X25Check(), Ones(16), Ones(16), first.data + Message(rest))
  {
    hide Updated, SoFar, Catalogue, Hex16, Zeros, Ones, Message;
    crc := fast.X25(first.data, first.address);
    Begun(X25Check(), Ones(16), Ones(16), first, rest, fast.seed, crc);
    for i := 0 to |rest|
      invariant fast.Valid() && SoFar(X25Check(), Ones(16), Ones(16), first, rest, i, fast.seed, crc)
    {
      ghost var seed, last := fast.seed, crc;
      crc := fast.X25Upd(rest[i].data, rest[i].address);
      Continued(X25Check(), Ones(16), Ones(16), first, rest, i, seed, last, fast.seed, crc);
    }
    Whole(X25Check(), Ones(16), Ones(16), first, rest, fast.seed, crc);
  }

  /** The register is inverted in what is returned only. */
  method Crc32InPieces(fast: FastCRC32, first: Piece, rest: seq<Piece>, bigTables: bool) returns (crc: Word)
    modifies fast
    ensures crc == Catalogue(Crc32Check(), Ones(32), Ones(32), first.data + Message(rest))
  {
    hide Updated, SoFar, Catalogue, Hex16, Zeros, Ones, Message;
    crc := fast.Crc32(first.data, first.address, bigTables);
    Begun(Crc32Check(), Ones(32), Ones(32), first, rest, fast.seed, crc);
    for i := 0 to |rest|
      invariant fast.Valid() && SoFar(Crc32Check(), Ones(32), Ones(32), first, rest, i, fast.seed, crc)
    {
      ghost var seed, last := fast.seed, crc;
      crc := fast.Crc32Upd(rest[i].data, rest[i].address, bigTables);
      Continued(Crc32Check(), Ones(32), Ones(32), first, rest, i, seed, last, fast.seed, crc);
    }
    Whole(Crc32Check(), Ones(32), Ones(32), first, rest, fast.seed, crc);
  }

  /** The register is swapped and inverted in what is returned only. */
  method CksumInPieces(fast: FastCRC32, first: Piece, rest: seq<Piece>, bigTables: bool) returns (crc: Word)
    modifies fast
    ensures crc == Catalogue(CksumCheck(), Zeros(32), Ones(32), first.data + Message(rest))
  {
    hide Updated, SoFar, Catalogue, Hex16, Zeros, Ones, Message;
    crc := fast.Cksum(first.data, first.address, bigTables);
    Begun(CksumCheck(), Zeros(32), Ones(32), first, rest, fast.seed, crc);
    for i := 0 to |rest|
      invariant fast.Valid() && SoFar(CksumCheck(), Zeros(32), Ones(32), first, rest, i, fast.seed, crc)
    {
      ghost var seed, last := fast.seed, crc;
      crc := fast.CksumUpd(rest[i].data, rest[i].address, bigTables);
      Continued(CksumCheck(), Zeros(32), Ones(32), first, rest, i, seed, last, fast.seed, crc);
    }
    Whole(CksumCheck(), Zeros(32), Ones(32), first, rest, fast.seed, crc);
  }
}
