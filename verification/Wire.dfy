/** Records on the wire: keys, and how many bytes a value of each wire type takes. */
module Wire {
  import opened Wrappers
  import opened Varint

  const WT_VARINT: nat := 0
  const WT_64BIT: nat := 1
  const WT_STRING: nat := 2
  const WT_32BIT: nat := 5
  /** Marks the elements of a packed array; never read from the wire. */
  const WT_PACKED: nat := 255

  /** A field number and a wire type, with the length of the key they were read from. */
  datatype Key = Key(tag: nat, wireType: nat, size: nat)

  function ReadKey(s: seq<byte>): (r: Option<Key>)
    ensures r.Some? ==> 0 < r.value.size <= |s| && r.value.wireType < 8
  {
    match Decode32(s)
    case None => None
    case Some((v, n)) => Some(Key(v / 8, v % 8, n))
  }

  /** A length prefix with as many bytes after it: where they start and end. */
  function Delimited(s: seq<byte>): (r: Option<(nat, nat)>)
    ensures r.Some? ==> 0 < r.value.0 <= r.value.1 <= |s|
  {
    match Decode32(s)
    case None => None
    case Some((size, n)) => if n + size <= |s| then Some((n, n + size)) else None
  }

  /** How many bytes a value of this wire type takes at the start of `s`. */
  function Extent(wireType: nat, s: seq<byte>): (r: Option<nat>)
    ensures r.Some? ==> r.value <= |s|
  {
    if wireType == WT_VARINT then (if Length(s) > 0 then Some(Length(s)) else None)
    else if wireType == WT_64BIT then (if |s| >= 8 then Some(8) else None)
    else if wireType == WT_STRING then (match Delimited(s) case None => None case Some((from, to)) => Some(to))
    else if wireType == WT_32BIT then (if |s| >= 4 then Some(4) else None)
    else None
  }

  /** A record: its key and the bytes of its value. */
  datatype Record = Record(tag: nat, wireType: nat, body: seq<byte>)

  /** The value of a key, cut from the bytes that follow it. */
  function Cut(wireType: nat, s: seq<byte>): (r: Option<seq<byte>>)
    ensures r.Some? ==> r.value <= s
  {
    match Extent(wireType, s)
    case None => None
    case Some(n) => Some(s[..n])
  }

  function ReadRecord(s: seq<byte>): (r: Option<(Record, nat)>)
    ensures r.Some? ==> 0 < r.value.1 <= |s|
  {
    match ReadKey(s)
    case None => None
    case Some(key) =>
      match Cut(key.wireType, s[key.size..])
      case None => None
      case Some(body) => Some((Record(key.tag, key.wireType, body), key.size + |body|))
  }

  /** All records of a string, when it consists of complete records. */
  function Records(s: seq<byte>): (r: Option<seq<Record>>)
    decreases |s|
  {
    if s == [] then Some([])
    else
      match ReadRecord(s)
      case None => None
      case Some((record, n)) =>
        match Records(s[n..])
        case None => None
        case Some(rest) => Some([record] + rest)
  }

  // ----- what follows a complete value does not change how it is read

  lemma Decode32OfPrefix(s: seq<byte>, t: seq<byte>)
    requires Length(s) > 0
    ensures Decode32(s + t) == Decode32(s)
  {
    LengthOfPrefix(s, t);
    var n := Length(s);
    ValueOfPrefix(s, t, n);
    if n >= 5 {
      ValueOfPrefix(s, t, 5);
      var low := Denoted(s, 5) % TWO_32;
      assert (s + t)[..n] == s[..n];
      SameExtensions(s + t, s, n, low);
    }
  }

  lemma SameExtensions(s: seq<byte>, t: seq<byte>, n: nat, low: nat)
    requires n <= |s| && n <= |t| && s[..n] == t[..n]
    ensures AllExtend(s, n, low) <==> AllExtend(t, n, low)
  {
    assert forall i :: 0 <= i < n ==> s[i] == s[..n][i] && t[i] == t[..n][i];
  }

  lemma Decode64OfPrefix(s: seq<byte>, t: seq<byte>)
    requires Length(s) > 0
    ensures Decode64(s + t) == Decode64(s)
  {
    LengthOfPrefix(s, t);
    ValueOfPrefix(s, t, Length(s));
  }

  lemma ExtentOfPrefix(wireType: nat, s: seq<byte>, t: seq<byte>)
    requires Extent(wireType, s).Some?
    ensures Extent(wireType, s + t) == Extent(wireType, s)
  {
    if wireType == WT_VARINT {
      LengthOfPrefix(s, t);
    } else if wireType == WT_STRING {
      Decode32OfPrefix(s, t);
    }
  }

  lemma DropFromConcat(s: seq<byte>, t: seq<byte>, n: nat)
    requires n <= |s|
    ensures (s + t)[n..] == s[n..] + t
  {
  }

  lemma ReadKeyOfPrefix(s: seq<byte>, t: seq<byte>)
    requires ReadKey(s).Some?
    ensures ReadKey(s + t) == ReadKey(s)
    ensures (s + t)[ReadKey(s).value.size..] == s[ReadKey(s).value.size..] + t
  {
    Decode32OfPrefix(s, t);
  }

  lemma CutOfPrefix(wireType: nat, s: seq<byte>, t: seq<byte>)
    requires Cut(wireType, s).Some?
    ensures Cut(wireType, s + t) == Cut(wireType, s)
  {
    ExtentOfPrefix(wireType, s, t);
    var n := Extent(wireType, s).value;
    assert (s + t)[..n] == s[..n];
  }

  lemma ReadRecordOfPrefix(s: seq<byte>, t: seq<byte>)
    requires ReadRecord(s).Some?
    ensures ReadRecord(s + t) == ReadRecord(s)
  {
    ReadKeyOfPrefix(s, t);
    var key := ReadKey(s).value;
    CutOfPrefix(key.wireType, s[key.size..], t);
  }

  // ----- a value cut off the wire is read the same

  lemma {:induction false} LengthOfTake(s: seq<byte>, k: nat)
    requires 0 < Length(s) <= k <= |s|
    ensures Length(s[..k]) == Length(s)
  {
    if s[0] >= 128 {
      LengthOfTake(s[1..], k - 1);
      assert s[..k][1..] == s[1..][..k - 1];
    }
  }

  lemma DelimitedOfTake(s: seq<byte>)
    requires Delimited(s).Some?
    ensures Delimited(s[..Delimited(s).value.1]) == Delimited(s)
  {
    var k := Delimited(s).value.1;
    var n := Length(s);
    LengthOfTake(s, k);
    assert s == s[..k] + s[k..];
    ValueOfPrefix(s[..k], s[k..], n);
    if n >= 5 {
      ValueOfPrefix(s[..k], s[k..], 5);
      forall i | 4 <= i < n
        ensures Extends(s[..k][i], i, Denoted(s, 5) % TWO_32)
      {
        assert s[..k][i] == s[i] && Extends(s[i], i, Denoted(s, 5) % TWO_32);
      }
    }
  }

  lemma RecordsStep(s: seq<byte>, record: Record, n: nat)
    requires s != [] && ReadRecord(s) == Some((record, n)) && Records(s[n..]).Some?
    ensures Records(s) == Some([record] + Records(s[n..]).value)
  {
  }
}
