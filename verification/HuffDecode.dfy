/**
 `TINFL_HUFF_DECODE` and `TINFL_HUFF_BITBUF_FILL` of external/miniz.c: finding the next symbol
 without reading a byte more than it takes when the input is about to end.
 */
module HuffDecode {
  import opened Bits
  import opened BitReader
  import opened Canonical
  import opened HuffmanTable
  import opened InflateTable
  import opened TrieCode
  import opened Wrappers

  /** The bits in the buffer. */
  ghost function Buffered(r: Reader): Bitstring
    reads r`bitBuf, r`numBits
  {
    ToBits(r.bitBuf, r.numBits)
  }

  ghost predicate Usable(t: Table, lens: Lens)
    reads t.lookUp, t.tree
  {
    t.Shape(t.tree.Length / 2) && t.For(lens) && |lens| <= 288
  }

  lemma UsableFits(t: Table, lens: Lens)
    requires Usable(t, lens)
    ensures Fits(lens, 15)
  {
    AcceptableFits(lens);
  }

  /** What is found in the buffer is found in the stream. */
  lemma BufferedLookup(r: Reader, lens: Lens)
    requires r.Valid() && Fits(lens, 15) && Lookup(lens, Buffered(r)).Some?
    ensures Lookup(lens, r.Pending()) == Lookup(lens, Buffered(r))
  {
    hide Lookup, ToBits, ByteBits, Fits;
    LookupMore(lens, Buffered(r), ByteBits(r.input[r.pos..] + r.future));
  }

  lemma EnoughBuffered(r: Reader, lens: Lens)
    requires Fits(lens, 15) && r.numBits >= 15
    ensures Lookup(lens, Buffered(r)).Some?
  {
    hide ToBits;
    LookupEnough(lens, Buffered(r));
  }

  /** Whether the buffer, of fewer than fifteen bits, holds a symbol. */
  method KnownNow(r: Reader, t: Table, ghost lens: Lens) returns (known: bool)
    requires r.Valid() && Usable(t, lens) && r.numBits < 15
    ensures known <==> Lookup(lens, Buffered(r)).Some?
  {
    hide Lookup, ToBits, ByteBits, Table.For;
    known := t.Known(r.bitBuf, r.numBits, lens);
  }

  /** Reads bytes one at a time until the symbol is known; `resumed` when it stopped in the middle. */
  method BitbufFill(r: Reader, t: Table, ghost lens: Lens, resumed: bool) returns (ok: bool)
    requires r.Valid() && Usable(t, lens) && r.numBits < 15
    requires resumed ==> Lookup(lens, Buffered(r)) == None
    modifies r`pos, r`bitBuf, r`numBits
    ensures r.Valid() && old(r.pos) <= r.pos && r.Pending() == old(r.Pending())
    ensures r.numBits - 8 * r.pos == old(r.numBits) - 8 * old(r.pos)
    ensures ok ==> Lookup(lens, Buffered(r)).Some?
    ensures !ok ==> r.pos == |r.input| && r.numBits < 15 && Lookup(lens, Buffered(r)) == None
  {
    hide Lookup, ToBits, ByteBits, Fits, Usable, Buffered, Reader.Pending, Reader.Valid;
    UsableFits(t, lens);
    var known := false;
    if !resumed {
      known := KnownNow(r, t, lens);
    }
    while !known
      invariant r.Valid() && old(r.pos) <= r.pos && r.Pending() == old(r.Pending())
      invariant r.numBits - 8 * r.pos == old(r.numBits) - 8 * old(r.pos)
      invariant Usable(t, lens)
      invariant known <==> Lookup(lens, Buffered(r)).Some?
      invariant !known ==> r.numBits < 15
      decreases if known then 0 else 15 - r.numBits
    {
      ok := r.LoadByte();
      if !ok {
        return;
      }
      if r.numBits >= 15 {
        EnoughBuffered(r, lens);
        known := true;
      } else {
        known := KnownNow(r, t, lens);
      }
    }
    ok := true;
  }

  method Decode(r: Reader, t: Table, ghost lens: Lens, resumed: bool) returns (ok: bool, sym: nat, ghost hit: Hit)
    requires r.Valid() && Usable(t, lens)
    requires resumed ==> r.numBits < 15 && Lookup(lens, Buffered(r)) == None
    modifies r`pos, r`bitBuf, r`numBits
    ensures r.Valid() && old(r.pos) <= r.pos
    ensures ok ==> Lookup(lens, old(r.Pending())) == Some(hit) && sym == hit.sym &&
                   r.Pending() == old(r.Pending())[hit.len..]
                   && r.numBits - 8 * r.pos == old(r.numBits) - 8 * old(r.pos) - hit.len
    ensures !ok ==> r.Pending() == old(r.Pending()) && r.pos == |r.input| && r.numBits < 15 &&
                    Lookup(lens, Buffered(r)) == None
                    && r.numBits - 8 * r.pos == old(r.numBits) - 8 * old(r.pos)
  {
    hide Lookup, ToBits, ByteBits, Fits, Usable, Buffered, Reader.Pending;
    UsableFits(t, lens);
    ok, sym, hit := true, 0, Hit(0, 0, false);
    if resumed {
      ok := BitbufFill(r, t, lens, true);
    } else if r.numBits < 15 {
      if |r.input| - r.pos < 2 {
        ok := BitbufFill(r, t, lens, false);
      } else {
        r.LoadTwo();
        EnoughBuffered(r, lens);
      }
    } else {
      EnoughBuffered(r, lens);
    }
    if ok {
      sym, hit := TakeSymbol(r, t, lens);
    }
  }

  /** Looks the symbol up and drops its bits. */
  method TakeSymbol(r: Reader, t: Table, ghost lens: Lens) returns (sym: nat, ghost hit: Hit)
    requires r.Valid() && Usable(t, lens) && Lookup(lens, Buffered(r)).Some?
    modifies r`bitBuf, r`numBits
    ensures r.Valid() && Lookup(lens, old(r.Pending())) == Some(hit) && sym == hit.sym
    ensures r.Pending() == old(r.Pending())[hit.len..]
    ensures r.numBits == old(r.numBits) - hit.len
  {
    UsableFits(t, lens);
    BufferedLookup(r, lens);
    hide Lookup, ToBits, ByteBits, Fits, Table.For, Reader.Pending;
    hit := Lookup(lens, Buffered(r)).value;
    var codeLen;
    sym, codeLen := t.Find(r.bitBuf, r.numBits, lens);
    var v := r.TakeBits(codeLen);
  }
}
