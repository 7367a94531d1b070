/** Input streams over a buffer: a read position and a number of bytes left. Every reader
    either takes exactly what its specification says, or fails; position plus bytes left never
    changes. */
module Stream {
  import opened Wrappers
  import opened Varint
  import opened Wire

  class IStream {
    const buf: seq<byte>
    var state: nat
    var bytesLeft: nat

    ghost predicate Valid()
      reads this
    {
      state + bytesLeft <= |buf|
    }

    /** The bytes this stream may still read. */
    ghost function Rest(): seq<byte>
      requires Valid()
      reads this
    {
      buf[state..state + bytesLeft]
    }

    ghost function End(): nat
      reads this
    {
      state + bytesLeft
    }

    constructor FromBuffer(bytes: seq<byte>, from: nat, size: nat)
      requires from + size <= |bytes|
      ensures buf == bytes && state == from && bytesLeft == size
      ensures Valid() && Rest() == bytes[from..from + size]
    {
      buf, state, bytesLeft := bytes, from, size;
    }

    /** The stream has moved on by `n` bytes. */
    twostate predicate Took(n: nat)
      requires old(Valid())
      reads this
    {
      && Valid() && End() == old(End()) && n <= |old(Rest())|
      && state == old(state) + n && Rest() == old(Rest())[n..]
    }

    /** Position and bytes left say it all: the bytes are those of the buffer. */
    twostate lemma TookTo(n: nat)
      requires old(Valid()) && Valid() && End() == old(End()) && state == old(state) + n
      ensures Took(n)
    {
    }

    /** The stream has failed somewhere inside its bytes; an array that overflows leaves its
        substream open, so the end may have come nearer. */
    twostate predicate Stuck()
      requires old(Valid())
      reads this
    {
      Valid() && End() <= old(End()) && old(state) <= state
    }

    method ReadByte() returns (r: Option<byte>)
      requires Valid()
      modifies this
      ensures r.Some? == (|old(Rest())| > 0)
      ensures r.Some? ==> r.value == old(Rest())[0] && Took(1)
      ensures r.None? ==> Took(0)
    {
      if bytesLeft == 0 {
        return None;
      }
      r := Some(buf[state]);
      state, bytesLeft := state + 1, bytesLeft - 1;
    }

    /** Read `count` bytes; the bytes read are returned where the code copies them. */
    method Read(count: nat) returns (r: Option<seq<byte>>)
      requires Valid()
      modifies this
      ensures r.Some? == (count <= |old(Rest())|)
      ensures r.Some? ==> r.value == old(Rest())[..count] && Took(count)
      ensures r.None? ==> Took(0)
    {
      if count == 0 {
        return Some([]);
      }
      if bytesLeft < count {
        return None;
      }
      r := Some(buf[state..state + count]);
      state, bytesLeft := state + count, bytesLeft - count;
    }

    // ----- varints

    method DecodeVarint() returns (r: Option<nat>)
      requires Valid()
      modifies this
      ensures r.Some? == Decode64(old(Rest())).Some?
      ensures r.Some? <==> 0 < Length(old(Rest())) <= 10 &&
                           Denoted(old(Rest()), Length(old(Rest()))) < 0x1_0000_0000_0000_0000
      ensures r.Some? ==> r.value == Decode64(old(Rest())).value.0 && Took(Decode64(old(Rest())).value.1)
      ensures r.None? ==> Stuck()
    {
      ghost var s := Rest();
      var bitpos, result := 0, 0;
      ghost var i := 0;
      while true
        invariant 0 <= i <= 9 && i <= |s| && bitpos == 7 * i && Took(i)
        invariant result == Denoted(s, i)
        invariant forall j :: 0 <= j < i ==> s[j] >= 128
        decreases 10 - i
      {
        var b := ReadByte();
        if b.None? {
          return None;
        }
        assert b.value == s[i];
        if bitpos >= 63 && b.value > 1 {
          NoShortVarint(s, i);
          return None;
        }
        assert bitpos / 7 == i && Denoted(s, i + 1) == Denoted(s, i) + Group(s[i], i);
        result := result + Group(b.value, bitpos / 7);
        bitpos := bitpos + 7;
        i := i + 1;
        if b.value < 128 {
          break;
        }
      }
      Accepted(s, i);
      return Some(result);
    }

    /** At most ten bytes read, a tenth not more than 1: this is what the varint denotes. */
    lemma Accepted(s: seq<byte>, n: nat)
      requires 0 < n <= 10 && n <= |s| && s[n - 1] < 128 && forall j :: 0 <= j < n - 1 ==> s[j] >= 128
      requires n == 10 ==> s[9] <= 1
      ensures Decode64(s) == Some((Denoted(s, n), n))
    {
      LengthIs(s, n);
      TenthByte(s, n);
    }

    /** Ten bytes read, the tenth more than 1: the varint is longer or denotes too much. */
    lemma NoShortVarint(s: seq<byte>, i: nat)
      requires i == 9 < |s| && s[9] > 1 && forall j :: 0 <= j < 9 ==> s[j] >= 128
      ensures Decode64(s).None?
    {
      var n := Length(s);
      if n == 10 { TenthByte(s, 10); }
    }

    lemma LengthIs(s: seq<byte>, n: nat)
      requires 0 < n <= |s| && s[n - 1] < 128 && forall j :: 0 <= j < n - 1 ==> s[j] >= 128
      ensures Length(s) == n
    {
    }

    /** The 32-bit decoder, with its end-of-stream flag. */
    method DecodeVarint32Eof() returns (r: Option<nat>, eof: bool)
      requires Valid()
      modifies this
      ensures r.Some? == Decode32(old(Rest())).Some?
      ensures r.Some? ==> r.value == Decode32(old(Rest())).value.0 && Took(Decode32(old(Rest())).value.1)
      ensures r.None? ==> Stuck()
      ensures eof == (old(Rest()) == [])
    {
      ghost var s := Rest();
      eof := false;
      var b := ReadByte();
      if b.None? {
        eof := bytesLeft == 0;
        return None, eof;
      }
      var result: nat := b.value % 128;
      FirstByte(s);
      var bitpos := 7;
      ghost var i := 1;
      while b.value >= 128
        invariant 1 <= i <= 10 && i <= |s| && bitpos == 7 * i && Took(i)
        invariant b.Some? && b.value == s[i - 1]
        invariant Prefix32(s, i, result)
        decreases 10 - i
      {
        b := ReadByte();
        if b.None? {
          return None, eof;
        }
        assert b.value == s[i];
        NextByte(s, i, result);
        var next := AddByte(b.value, bitpos, result);
        if next.None? {
          return None, eof;
        }
        result := next.value;
        bitpos := bitpos + 7;
        i := i + 1;
      }
      LengthIs(s, i);
      return Some(result), eof;
    }

    method DecodeVarint32() returns (r: Option<nat>)
      requires Valid()
      modifies this
      ensures r.Some? == Decode32(old(Rest())).Some?
      ensures r.Some? ==> r.value == Decode32(old(Rest())).value.0 && Took(Decode32(old(Rest())).value.1)
      ensures r.None? ==> Stuck()
    {
      var eof;
      r, eof := DecodeVarint32Eof();
    }

    // ----- skipping

    method SkipVarint() returns (ok: bool)
      requires Valid()
      modifies this
      ensures ok == (Length(old(Rest())) > 0)
      ensures if ok then Took(Length(old(Rest()))) else Stuck()
    {
      ghost var s := Rest();
      ghost var i := 0;
      while true
        invariant i <= |s| && Took(i)
        invariant forall j :: 0 <= j < i ==> s[j] >= 128
        decreases |s| - i
      {
        var b := Read(1);
        if b.None? {
          return false;
        }
        assert b.value[0] == s[i];
        i := i + 1;
        if b.value[0] < 128 {
          break;
        }
      }
      LengthIs(s, i);
      return true;
    }

    method SkipString() returns (ok: bool)
      requires Valid()
      modifies this
      ensures ok == Delimited(old(Rest())).Some?
      ensures if ok then Took(Delimited(old(Rest())).value.1) else Stuck()
    {
      var length := DecodeVarint32();
      if length.None? {
        return false;
      }
      var skipped := Read(length.value);
      ok := skipped.Some?;
    }

    method SkipField(wireType: nat) returns (ok: bool)
      requires Valid()
      modifies this
      ensures ok == Extent(wireType, old(Rest())).Some?
      ensures if ok then Took(Extent(wireType, old(Rest())).value) else Stuck()
    {
      if wireType == WT_VARINT {
        ok := SkipVarint();
      } else if wireType == WT_64BIT {
        var skipped := Read(8);
        ok := skipped.Some?;
      } else if wireType == WT_STRING {
        ok := SkipString();
      } else if wireType == WT_32BIT {
        var skipped := Read(4);
        ok := skipped.Some?;
      } else {
        ok := false;
      }
    }

    method DecodeTag() returns (r: Option<Key>, eof: bool)
      requires Valid()
      modifies this
      ensures r.Some? == ReadKey(old(Rest())).Some?
      ensures r.Some? ==> r == ReadKey(old(Rest())) && Took(r.value.size)
      ensures r.None? ==> Stuck()
      ensures eof == (old(Rest()) == [])
    {
      var before := bytesLeft;
      var temp;
      temp, eof := DecodeVarint32Eof();
      if temp.None? {
        return None, eof;
      }
      return Some(Key(temp.value / 8, temp.value % 8, before - bytesLeft)), eof;
    }

    // ----- substreams

    /** A stream over the next length-delimited value; this stream keeps the bytes after it
        and moves on when the substream is closed. */
    method MakeStringSubstream() returns (r: Option<IStream>)
      requires Valid()
      modifies this
      ensures r.Some? == Delimited(old(Rest())).Some?
      ensures r.Some? ==>
                var (from, to) := Delimited(old(Rest())).value;
                && fresh(r.value) && r.value.Valid() && r.value.buf == buf
                && r.value.Rest() == old(Rest())[from..to]
                && r.value.End() == old(state) + to
                && bytesLeft == |old(Rest())| - to && state == old(state) + from
      ensures r.None? ==> Stuck()
    {
      ghost var s := Rest();
      var size := DecodeVarint32();
      if size.None? || bytesLeft < size.value {
        return None;
      }
      var substream := new IStream.FromBuffer(buf, state, size.value);
      assert substream.Rest() == Rest()[..size.value];
      bytesLeft := bytesLeft - size.value;
      r := Some(substream);
    }

    /** Skip what is left of the substream and continue after it. */
    method CloseStringSubstream(substream: IStream)
      requires substream != this && substream.Valid() && substream.buf == buf
      requires substream.End() + bytesLeft <= |buf|
      modifies this, substream
      ensures Valid() && bytesLeft == old(bytesLeft) && state == old(substream.End())
    {
      if substream.bytesLeft != 0 {
        var skipped := substream.Read(substream.bytesLeft);
      }
      state := substream.state;
    }
  }

  // ----- one byte of a 32-bit varint

  /** The 32-bit result after one more byte, or None on overflow. */
  function AddByte(b: byte, bitpos: nat, result: nat): Option<nat> {
    if bitpos >= 32 then
      var signExtension := if bitpos < 63 then 0xFF else 0x01;
      var validExtension := b % 128 == 0 || (result >= TWO_31 && b == signExtension);
      if bitpos >= 64 || !validExtension then None else Some(result)
    else if bitpos == 28 then
      if b / 16 % 8 != 0 && b / 8 % 16 != 15 then None else Some(result + LowNibble(b) * 0x1000_0000)
    else
      Some(result + Group(b, bitpos / 7))
  }

  /** The first `i` bytes go on and have been accepted; `result` holds their low 32 bits. */
  ghost predicate Prefix32(s: seq<byte>, i: nat, result: nat) {
    && 1 <= i <= |s| && result == Denoted(s, i) % TWO_32
    && (forall j :: 0 <= j < i - 1 ==> s[j] >= 128)
    && (i >= 5 ==> AllExtend(s, i, Denoted(s, 5) % TWO_32))
  }

  lemma FirstByte(s: seq<byte>)
    requires s != []
    ensures Prefix32(s, 1, s[0] % 128)
  {
    assert Weight(0) == 1 && Denoted(s, 0) == 0;
    assert Denoted(s, 1) == s[0] % 128;
  }

  lemma NextByte(s: seq<byte>, i: nat, result: nat)
    requires Prefix32(s, i, result) && i < |s| && i <= 10 && s[i - 1] >= 128
    ensures match AddByte(s[i], 7 * i, result)
            case None => Decode32(s).None?
            case Some(next) => i <= 9 && Prefix32(s, i + 1, next)
  {
    if i >= 5 {
      NextHigh(s, i, result);
    } else if i == 4 {
      NextFifth(s, result);
    } else {
      EarlyByte(s, i);
    }
  }

  lemma NextHigh(s: seq<byte>, i: nat, result: nat)
    requires Prefix32(s, i, result) && 5 <= i < |s| && i <= 10 && s[i - 1] >= 128
    ensures match AddByte(s[i], 7 * i, result)
            case None => Decode32(s).None?
            case Some(next) => i <= 9 && Prefix32(s, i + 1, next)
  {
    LowBits(s, i);
    if Extends(s[i], i, result) {
      HighGroup(s[i], i, Denoted(s, i));
      assert forall j {:trigger Extends(s[j], j, result)} :: 4 <= j < i + 1 ==> Extends(s[j], j, result);
    } else {
      NotExtended(s, i);
    }
  }

  lemma NextFifth(s: seq<byte>, result: nat)
    requires Prefix32(s, 4, result) && 4 < |s| && s[3] >= 128
    ensures match AddByte(s[4], 28, result)
            case None => Decode32(s).None?
            case Some(next) => Prefix32(s, 5, next)
  {
    var low := Denoted(s, 5) % TWO_32;
    if Extends(s[4], 4, low) {
      FifthByte(s);
      assert forall j {:trigger Extends(s[j], j, low)} :: 4 <= j < 5 ==> Extends(s[j], j, low);
    } else {
      NotExtended(s, 4);
    }
  }

  /** A byte that is no extension of the 32 bits rules the varint out. */
  lemma NotExtended(s: seq<byte>, i: nat)
    requires 4 <= i < |s| && (forall j :: 0 <= j < i ==> s[j] >= 128)
    requires !Extends(s[i], i, Denoted(s, 5) % TWO_32)
    ensures Decode32(s).None?
  {
    var n := Length(s);
    if n > 0 {
      assert n > i;
      assert !AllExtend(s, n, Denoted(s, 5) % TWO_32);
    }
  }

  lemma EarlyByte(s: seq<byte>, i: nat)
    requires 1 <= i < 4 && i < |s|
    ensures Denoted(s, i + 1) % TWO_32 == Denoted(s, i) % TWO_32 + Group(s[i], i)
  {
    WeightValues();
    ValueBound(s, i + 1);
    WeightGrows(i + 1, 4);
    ValueGrows(s, i, i + 1);
  }
}
