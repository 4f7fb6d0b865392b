/** HUFF/CDIC decompression (read32Bits and huffcdic in frontend/public/foliate/mobi.js): a code table
    and a dictionary whose entries may themselves be compressed, and are replaced by their expansion
    the first time they are used. */
module Huffcdic {
  import opened Wrappers

  type Byte = b: nat | b < 256
  type Bytes = seq<Byte>

  // ---- bits ----

  function Pow2(n: nat): (p: nat)
    ensures p > 0
  {
    if n == 0 then 1 else 2 * Pow2(n - 1)
  }

  /** Bit j of the stream, most significant bit of each byte first; zero past the end. */
  function Bit(bytes: Bytes, j: nat): (b: nat)
    ensures b < 2
  {
    if j / 8 < |bytes| then bytes[j / 8] / Pow2(7 - j % 8) % 2 else 0
  }

  /** The number written in n bits from a position on. */
  function BitsFrom(bytes: Bytes, from: nat, n: nat): nat {
    if n == 0 then 0 else 2 * BitsFrom(bytes, from, n - 1) + Bit(bytes, from + n - 1)
  }

  lemma {:induction false} BitsBound(bytes: Bytes, from: nat, n: nat)
    ensures BitsFrom(bytes, from, n) < Pow2(n)
  {
    if n > 0 {
      BitsBound(bytes, from, n - 1);
    }
  }

  lemma {:induction false} BitsSplit(bytes: Bytes, from: nat, m: nat, n: nat)
    ensures BitsFrom(bytes, from, m + n) == BitsFrom(bytes, from, m) * Pow2(n) + BitsFrom(bytes, from + m, n)
  {
    hide Bit;
    if n > 0 {
      BitsSplit(bytes, from, m, n - 1);
      Doubled(BitsFrom(bytes, from, m), Pow2(n - 1), BitsFrom(bytes, from + m, n - 1), Bit(bytes, from + m + n - 1));
    }
  }

  lemma Doubled(a: nat, p: nat, y: nat, bit: nat)
    ensures 2 * (a * p + y) + bit == a * (2 * p) + (2 * y + bit)
  {
    assert a * (2 * p) == 2 * (a * p);
  }

  function ByteAt(bytes: Bytes, i: nat): Byte {
    if i < |bytes| then bytes[i] else 0
  }

  lemma BitOfByte(bytes: Bytes, i: nat, k: nat)
    requires k < 8
    ensures Bit(bytes, 8 * i + k) == ByteAt(bytes, i) / Pow2(7 - k) % 2
  {
    assert (8 * i + k) / 8 == i && (8 * i + k) % 8 == k;
  }

  lemma {:induction false} HighBits(bytes: Bytes, i: nat, n: nat)
    requires n <= 8
    ensures BitsFrom(bytes, 8 * i, n) == ByteAt(bytes, i) / Pow2(8 - n)
  {
    hide Bit;
    PowersOfTwo();
    if n > 0 {
      HighBits(bytes, i, n - 1);
      BitOfByte(bytes, i, n - 1);
      Halve(ByteAt(bytes, i), n);
    }
  }

  lemma Halve(b: Byte, n: nat)
    requires 0 < n <= 8
    ensures 2 * (b / Pow2(9 - n)) + b / Pow2(8 - n) % 2 == b / Pow2(8 - n)
  {
    var p := Pow2(8 - n);
    assert Pow2(9 - n) == 2 * p;
    hide Pow2;
    HalveBy(b, p);
  }

  lemma HalveBy(b: nat, p: nat)
    requires p > 0
    ensures 2 * (b / (2 * p)) + b / p % 2 == b / p
  {
    var q, r := b / p, b % p;
    assert b == q * p + r;
    var h, e := q / 2, q % 2;
    assert q * p == h * (2 * p) + e * p;
    assert e * p + r < 2 * p;
    DivideBack(h, 2 * p, e * p + r);
  }

  lemma BitsOfByte(bytes: Bytes, i: nat)
    ensures BitsFrom(bytes, 8 * i, 8) == ByteAt(bytes, i)
  {
    HighBits(bytes, i, 8);
  }

  function ByteRun(bytes: Bytes, first: nat, n: nat): nat {
    if n == 0 then 0 else 256 * ByteRun(bytes, first, n - 1) + ByteAt(bytes, first + n - 1)
  }

  lemma {:induction false} ByteRunIsBits(bytes: Bytes, first: nat, n: nat)
    ensures ByteRun(bytes, first, n) == BitsFrom(bytes, 8 * first, 8 * n)
  {
    hide BitsFrom;
    if n > 0 {
      ByteRunIsBits(bytes, first, n - 1);
      BitsSplit(bytes, 8 * first, 8 * (n - 1), 8);
      BitsOfByte(bytes, first + n - 1);
      assert Pow2(8) == 256 by { PowersOfTwo(); }
    } else {
      assert BitsFrom(bytes, 8 * first, 0) == 0 by { NoBits(bytes, 8 * first); }
    }
  }

  lemma NoBits(bytes: Bytes, from: nat)
    ensures BitsFrom(bytes, from, 0) == 0
  {
  }

  lemma PowersOfTwo()
    ensures Pow2(1) == 2 && Pow2(2) == 4 && Pow2(3) == 8 && Pow2(4) == 16
    ensures Pow2(5) == 32 && Pow2(6) == 64 && Pow2(7) == 128 && Pow2(8) == 256
    ensures Pow2(24) == 0x100_0000 && Pow2(32) == 0x1_0000_0000
  {
    assert Pow2(4) == 16;
    assert Pow2(8) == 256;
    assert Pow2(12) == 4096;
    assert Pow2(16) == 0x1_0000;
    assert Pow2(20) == 0x10_0000;
    assert Pow2(24) == 0x100_0000;
    assert Pow2(28) == 0x1000_0000;
  }

  /** Five bytes, shifted down by what the last one has too much and cut to 32 bits, are the 32 bits
      from the position on. */
  lemma FiveBytes(bytes: Bytes, from: nat)
    ensures ByteRun(bytes, from / 8, 5) / Pow2(8 - from % 8) % 0x1_0000_0000 == BitsFrom(bytes, from, 32)
  {
    hide BitsFrom, ByteRun, Pow2;
    var s, b := from / 8, from % 8;
    ByteRunIsBits(bytes, s, 5);
    PowersOfTwo();
    BitsSplit(bytes, 8 * s, b, 40 - b);
    BitsSplit(bytes, from, 32, 8 - b);
    BitsBound(bytes, from, 32);
    BitsBound(bytes, from + 32, 8 - b);
    PowSum(32, 8 - b);
    var head, wanted, extra := BitsFrom(bytes, 8 * s, b), BitsFrom(bytes, from, 32), BitsFrom(bytes, from + 32, 8 - b);
    var p := Pow2(8 - b);
    assert ByteRun(bytes, s, 5) == head * Pow2(40 - b) + (wanted * p + extra);
    CutMiddle(head, wanted, extra, p);
  }

  lemma {:induction false} PowSum(m: nat, n: nat)
    ensures Pow2(m + n) == Pow2(m) * Pow2(n)
  {
    hide Pow2;
    assert Pow2(0) == 1 by { PowNone(); }
    if n > 0 {
      PowSum(m, n - 1);
      PowNext(m + n);
      PowNext(n);
      TwiceProduct(Pow2(m), Pow2(n - 1));
    }
  }

  lemma PowNone()
    ensures Pow2(0) == 1
  {
  }

  lemma PowNext(n: nat)
    requires n > 0
    ensures Pow2(n) == 2 * Pow2(n - 1)
  {
  }

  lemma TwiceProduct(x: nat, y: nat)
    ensures x * (2 * y) == 2 * (x * y)
  {
  }

  lemma CutMiddle(head: nat, wanted: nat, extra: nat, p: nat)
    requires p > 0 && extra < p && wanted < 0x1_0000_0000
    ensures (head * (0x1_0000_0000 * p) + (wanted * p + extra)) / p % 0x1_0000_0000 == wanted
  {
    var high := head * 0x1_0000_0000;
    Regroup(head, 0x1_0000_0000, p);
    Gather(high, wanted, p);
    DivideBack(high + wanted, p, extra);
    RestOf(head, wanted);
  }

  lemma Regroup(x: nat, y: nat, p: nat)
    ensures x * (y * p) == x * y * p
  {
  }

  lemma Gather(x: nat, y: nat, p: nat)
    ensures x * p + y * p == (x + y) * p
  {
  }

  lemma RestOf(head: nat, wanted: nat)
    requires wanted < 0x1_0000_0000
    ensures (head * 0x1_0000_0000 + wanted) % 0x1_0000_0000 == wanted
  {
  }

  lemma DivideBack(q: nat, p: nat, r: nat)
    requires r < p
    ensures (q * p + r) / p == q
  {
    var n := q * p + r;
    var d, m := n / p, n % p;
    assert n == d * p + m;
    assert (d - q) * p == r - m && (q - d) * p == m - r;
    AtLeast(d - q, p);
    AtLeast(q - d, p);
  }

  lemma AtLeast(x: int, p: nat)
    ensures x >= 1 ==> x * p >= p
  {
  }

  method Read32Bits(bytes: Bytes, from: nat) returns (r: nat)
    ensures r == BitsFrom(bytes, from, 32) < 0x1_0000_0000
  {
    hide BitsFrom, Pow2;
    var startByte := from / 8;
    var end := from + 32;
    var endByte := end / 8;
    var bits := 0;
    var i := startByte;
    while i <= endByte
      invariant startByte <= i <= endByte + 1
      invariant bits == ByteRun(bytes, startByte, i - startByte)
    {
      bits := bits * 256 + ByteAt(bytes, i);
      i := i + 1;
    }
    FiveBytes(bytes, from);
    r := bits / Pow2(8 - end % 8) % 0x1_0000_0000;
  }

  // ---- codes ----

  /** table1 by the first eight bits; table2 by code length, whose entry for length zero is null. */
  datatype Short = Short(found: bool, codeLength: nat, value: nat)
  datatype Long = Long(minCode: nat, maxCode: nat)
  datatype Tables = Tables(table1: seq<Short>, table2: seq<Long>)

  /** The tables as the HUFF record gives them, with a length above zero for each code found in
      table1. */
  predicate ValidTables(t: Tables) {
    && |t.table1| == 256 && |t.table2| == 33
    && forall e <- t.table1 :: e.codeLength < 32 && (e.found ==> e.codeLength > 0)
  }

  datatype Code = Code(code: int, length: nat)

  /** The first length from codeLength on whose codes reach down to the bits; None where the
      decompressor of mobi.js reads past table2 or its null entry. */
  function LongLength(t: Tables, bits: nat, codeLength: nat): (r: Option<nat>)
    requires ValidTables(t)
    ensures r.Some? ==> codeLength <= r.value && 0 < r.value <= 32
    decreases 33 - codeLength
  {
    if codeLength == 0 || codeLength > 32 then None
    else if bits / Pow2(32 - codeLength) < t.table2[codeLength].minCode then LongLength(t, bits, codeLength + 1)
    else Some(codeLength)
  }

  /** The code at a position; None where the decompressor of mobi.js throws. */
  function CodeAt(t: Tables, bytes: Bytes, i: nat): (r: Option<Code>)
    requires ValidTables(t)
    ensures r.Some? ==> r.value.length > 0
  {
    var bits := BitsFrom(bytes, i, 32);
    FirstByte(bytes, i);
    var short := t.table1[bits / 0x100_0000];
    assert short in t.table1;
    if short.found then Some(Code(short.value - bits / Pow2(32 - short.codeLength), short.codeLength))
    else
      var length := LongLength(t, bits, short.codeLength);
      if length.None? then None
      else Some(Code(t.table2[length.value].maxCode - bits / Pow2(32 - length.value), length.value))
  }

  /** Shifting the 32 bits right leaves the first n of them. */
  lemma LeadingBits(bytes: Bytes, i: nat, n: nat)
    requires n <= 32
    ensures BitsFrom(bytes, i, 32) / Pow2(32 - n) == BitsFrom(bytes, i, n)
  {
    hide BitsFrom, Pow2;
    BitsSplit(bytes, i, n, 32 - n);
    BitsBound(bytes, i + n, 32 - n);
    DivideBack(BitsFrom(bytes, i, n), Pow2(32 - n), BitsFrom(bytes, i + n, 32 - n));
  }

  lemma {:induction false} LongLengthIsLeast(t: Tables, bytes: Bytes, i: nat, codeLength: nat)
    requires ValidTables(t)
    ensures var r := LongLength(t, BitsFrom(bytes, i, 32), codeLength);
            r.Some? ==>
              && BitsFrom(bytes, i, r.value) >= t.table2[r.value].minCode
              && forall n :: codeLength <= n < r.value ==> BitsFrom(bytes, i, n) < t.table2[n].minCode
    decreases 33 - codeLength
  {
    if 0 < codeLength <= 32 {
      LeadingBits(bytes, i, codeLength);
      LongLengthIsLeast(t, bytes, i, codeLength + 1);
    }
  }

  /** A code is the table's value less the code's own bits. The eight bits at the position decide a
      short code; a long code has the least length from there on whose bits reach the minimum. */
  lemma CodeFromBits(t: Tables, bytes: Bytes, i: nat)
    requires ValidTables(t) && CodeAt(t, bytes, i).Some?
    ensures BitsFrom(bytes, i, 8) < 256
    ensures var short, c := t.table1[BitsFrom(bytes, i, 8)], CodeAt(t, bytes, i).value;
            if short.found then
              c.length == short.codeLength && c.code == short.value - BitsFrom(bytes, i, c.length)
            else
              && short.codeLength <= c.length <= 32
              && c.code == t.table2[c.length].maxCode - BitsFrom(bytes, i, c.length)
              && BitsFrom(bytes, i, c.length) >= t.table2[c.length].minCode
              && forall n :: short.codeLength <= n < c.length ==> BitsFrom(bytes, i, n) < t.table2[n].minCode
  {
    hide BitsFrom, Pow2, LongLength;
    LeadingBits(bytes, i, 8);
    FirstByte(bytes, i);
    assert Pow2(24) == 0x100_0000 by { PowersOfTwo(); }
    var short := t.table1[BitsFrom(bytes, i, 8)];
    assert short in t.table1;
    LongLengthIsLeast(t, bytes, i, short.codeLength);
    LeadingBits(bytes, i, CodeAt(t, bytes, i).value.length);
  }

  /** The code is missing exactly when no length that the search reaches has bits up to its minimum. */
  lemma CodeIsMissing(t: Tables, bytes: Bytes, i: nat)
    requires ValidTables(t)
    ensures BitsFrom(bytes, i, 8) < 256
    ensures var short := t.table1[BitsFrom(bytes, i, 8)];
            CodeAt(t, bytes, i).None? <==>
              && !short.found
              && (short.codeLength == 0
                  || forall n :: short.codeLength <= n <= 32 ==> BitsFrom(bytes, i, n) < t.table2[n].minCode)
  {
    hide BitsFrom, Pow2, LongLength;
    LeadingBits(bytes, i, 8);
    FirstByte(bytes, i);
    assert Pow2(24) == 0x100_0000 by { PowersOfTwo(); }
    var short := t.table1[BitsFrom(bytes, i, 8)];
    assert short in t.table1;
    NoLongLength(t, bytes, i, short.codeLength);
  }

  lemma {:induction false} NoLongLength(t: Tables, bytes: Bytes, i: nat, codeLength: nat)
    requires ValidTables(t)
    ensures LongLength(t, BitsFrom(bytes, i, 32), codeLength).None? <==>
      codeLength == 0 || forall n :: codeLength <= n <= 32 ==> BitsFrom(bytes, i, n) < t.table2[n].minCode
    decreases 33 - codeLength
  {
    hide BitsFrom, Pow2;
    if 0 < codeLength <= 32 {
      LeadingBits(bytes, i, codeLength);
      NoLongLength(t, bytes, i, codeLength + 1);
    }
  }

  lemma FirstByte(bytes: Bytes, i: nat)
    ensures BitsFrom(bytes, i, 32) / 0x100_0000 < 256
  {
    BitsBound(bytes, i, 32);
    PowersOfTwo();
  }

  /** The codes of a piece of text from a position on, and whether reading them throws. */
  datatype Codes = Codes(codes: seq<int>, throws: bool)

  function CodesFrom(t: Tables, bytes: Bytes, i: nat): Codes
    requires ValidTables(t)
    decreases 8 * |bytes| - i
  {
    if i >= 8 * |bytes| then Codes([], false)
    else
      var next := CodeAt(t, bytes, i);
      if next.None? then Codes([], true)
      else if i + next.value.length > 8 * |bytes| then Codes([], false)
      else
        var rest := CodesFrom(t, bytes, i + next.value.length);
        Codes([next.value.code] + rest.codes, rest.throws)
  }

  lemma CodesNext(t: Tables, bytes: Bytes, i: nat)
    requires ValidTables(t) && i < 8 * |bytes|
    ensures var next, codes := CodeAt(t, bytes, i), CodesFrom(t, bytes, i);
            if next.None? then codes == Codes([], true)
            else if i + next.value.length > 8 * |bytes| then codes == Codes([], false)
            else
              var rest := CodesFrom(t, bytes, i + next.value.length);
              && codes == Codes([next.value.code] + rest.codes, rest.throws)
              && codes.codes[1..] == rest.codes
  {
    hide CodeAt;
  }

  lemma CodesEnd(t: Tables, bytes: Bytes, i: nat)
    requires ValidTables(t) && i >= 8 * |bytes|
    ensures CodesFrom(t, bytes, i) == Codes([], false)
  {
  }

  // ---- the meaning of compressed text ----

  datatype Entry = Entry(value: Bytes, decompressed: bool)

  type Dictionary = seq<Entry>

  /** The ranks show that no compressed entry leads back to itself. */
  predicate Ranked(t: Tables, d: Dictionary, rank: seq<nat>)
    requires ValidTables(t)
  {
    && |rank| == |d|
    && forall k :: 0 <= k < |d| && !d[k].decompressed ==> Below(CodesFrom(t, d[k].value, 0).codes, rank, rank[k])
  }

  /** Every code that the dictionary has is of a rank below the bound. */
  predicate Below(codes: seq<int>, rank: seq<nat>, bound: nat) {
    forall j :: 0 <= j < |codes| ==> (0 <= codes[j] < |rank| ==> rank[codes[j]] < bound)
  }

  /** The expansion of an entry by plain recursion, with nothing cached; None where it throws. */
  function EntryMeaning(t: Tables, d: Dictionary, rank: seq<nat>, k: int): Option<Bytes>
    requires ValidTables(t) && Ranked(t, d, rank)
    decreases if 0 <= k < |rank| then rank[k] else 0, 1, 0
  {
    if !(0 <= k < |d|) then None
    else if d[k].decompressed then Some(d[k].value)
    else Meaning(t, d, rank, CodesFrom(t, d[k].value, 0), rank[k])
  }

  /** The expansion of a list of codes. */
  function Meaning(t: Tables, d: Dictionary, rank: seq<nat>, codes: Codes, bound: nat): Option<Bytes>
    requires ValidTables(t) && Ranked(t, d, rank) && Below(codes.codes, rank, bound)
    decreases bound, 0, |codes.codes|
  {
    if codes.codes == [] then if codes.throws then None else Some([])
    else
      assert 0 <= codes.codes[0] < |rank| ==> rank[codes.codes[0]] < bound;
      var first := if 0 <= codes.codes[0] < |d| then EntryMeaning(t, d, rank, codes.codes[0]) else None;
      var rest := Meaning(t, d, rank, Codes(codes.codes[1..], codes.throws), bound);
      Both(first, rest)
  }

  function Both(x: Option<Bytes>, y: Option<Bytes>): Option<Bytes> {
    if x.None? || y.None? then None else Some(x.value + y.value)
  }

  /** What decompressing a piece of text should give. */
  function Expansion(t: Tables, d: Dictionary, rank: seq<nat>, bytes: Bytes, bound: nat): Option<Bytes>
    requires ValidTables(t) && Ranked(t, d, rank) && Below(CodesFrom(t, bytes, 0).codes, rank, bound)
  {
    Meaning(t, d, rank, CodesFrom(t, bytes, 0), bound)
  }

  lemma BothJoins(x: Bytes, y: Option<Bytes>, z: Option<Bytes>)
    ensures Both(Some(x), Both(y, z)) == if y.None? then None else Both(Some(x + y.value), z)
  {
    if y.Some? && z.Some? {
      assert x + (y.value + z.value) == x + y.value + z.value;
    }
  }

  lemma BothEmpty(x: Option<Bytes>)
    ensures Both(Some([]), x) == x && Both(x, Some([])) == x
  {
    if x.Some? {
      assert [] + x.value == x.value && x.value + [] == x.value;
    }
  }

  lemma MeaningNext(t: Tables, d: Dictionary, rank: seq<nat>, codes: Codes, bound: nat)
    requires ValidTables(t) && Ranked(t, d, rank) && Below(codes.codes, rank, bound) && codes.codes != []
    ensures Below(codes.codes[1..], rank, bound)
    ensures Meaning(t, d, rank, codes, bound)
            == Both(EntryMeaning(t, d, rank, codes.codes[0]),
                    Meaning(t, d, rank, Codes(codes.codes[1..], codes.throws), bound))
  {
    BelowRest(codes.codes, rank, bound);
  }

  lemma MeaningEnd(t: Tables, d: Dictionary, rank: seq<nat>, bound: nat)
    requires ValidTables(t) && Ranked(t, d, rank)
    ensures Below([], rank, bound) && Meaning(t, d, rank, Codes([], false), bound) == Some([])
  {
  }

  lemma MeaningThrows(t: Tables, d: Dictionary, rank: seq<nat>, bound: nat, output: Bytes)
    requires ValidTables(t) && Ranked(t, d, rank)
    ensures Below([], rank, bound)
    ensures Both(Some(output), Meaning(t, d, rank, Codes([], true), bound)) == None
  {
  }

  lemma BelowRest(codes: seq<int>, rank: seq<nat>, bound: nat)
    requires Below(codes, rank, bound) && codes != []
    ensures Below(codes[1..], rank, bound) && (0 <= codes[0] < |rank| ==> rank[codes[0]] < bound)
  {
    assert forall j :: 0 <= j < |codes| - 1 ==> codes[1..][j] == codes[j + 1];
  }

  /** A bound above every rank, which any text meets. */
  function Top(rank: seq<nat>): nat {
    if rank == [] then 0
    else
      var rest := Top(rank[1..]);
      if rank[0] >= rest then rank[0] + 1 else rest
  }

  lemma {:induction false} BelowTop(codes: seq<int>, rank: seq<nat>)
    ensures Below(codes, rank, Top(rank))
  {
    RanksBelowTop(rank);
  }

  lemma {:induction false} RanksBelowTop(rank: seq<nat>)
    ensures forall k :: 0 <= k < |rank| ==> rank[k] < Top(rank)
  {
    if rank != [] {
      RanksBelowTop(rank[1..]);
      assert forall k :: 1 <= k < |rank| ==> rank[k] == rank[1..][k - 1];
    }
  }

  /** The meaning is that of the dictionary: it does not depend on the ranks that show it acyclic. */
  lemma {:induction false} MeaningIsUnique(t: Tables, d: Dictionary, rank: seq<nat>, bound: nat,
                                           other: seq<nat>, limit: nat, codes: Codes)
    requires ValidTables(t) && Ranked(t, d, rank) && Ranked(t, d, other)
    requires Below(codes.codes, rank, bound) && Below(codes.codes, other, limit)
    ensures Meaning(t, d, rank, codes, bound) == Meaning(t, d, other, codes, limit)
    decreases bound, |codes.codes|
  {
    hide ValidTables, Below;
    if codes.codes != [] {
      BelowRest(codes.codes, rank, bound);
      BelowRest(codes.codes, other, limit);
      MeaningIsUnique(t, d, rank, bound, other, limit, Codes(codes.codes[1..], codes.throws));
      var k := codes.codes[0];
      if 0 <= k < |d| && !d[k].decompressed {
        MeaningIsUnique(t, d, rank, rank[k], other, other[k], CodesFrom(t, d[k].value, 0));
      }
    }
  }

  // ---- the same without ranks, code by code ----

  /** What reading a piece of text code by code comes to, when entries are followed to a certain depth:
      the bytes, an exception, or an entry that lies deeper. */
  datatype Outcome = Gives(bytes: Bytes) | Fails | Deeper

  function Followed(x: Outcome, y: Outcome): Outcome {
    if !x.Gives? then x else if !y.Gives? then y else Gives(x.bytes + y.bytes)
  }

  /** The text from bit i on: nothing when no whole code is left; else the expansion of the first code,
      which is the value of its entry, decompressed in turn if it is compressed, and then the rest. */
  function Read(t: Tables, d: Dictionary, bytes: Bytes, i: nat, depth: nat): Outcome
    requires ValidTables(t)
    decreases depth, 8 * |bytes| - i
  {
    if i >= 8 * |bytes| then Gives([])
    else
      var next := CodeAt(t, bytes, i);
      if next.None? then Fails
      else if i + next.value.length > 8 * |bytes| then Gives([])
      else
        var k := next.value.code;
        if !(0 <= k < |d|) then Fails
        else
          var first := if d[k].decompressed then Gives(d[k].value)
                       else if depth == 0 then Deeper
                       else Read(t, d, d[k].value, 0, depth - 1);
          if !first.Gives? then first else Followed(first, Read(t, d, bytes, i + next.value.length, depth))
  }

  /** Text has an expansion when following its entries comes to an end; None is the exception. */
  ghost predicate ExpandsTo(t: Tables, d: Dictionary, bytes: Bytes, r: Option<Bytes>)
    requires ValidTables(t)
  {
    exists depth: nat :: Read(t, d, bytes, 0, depth) == if r.None? then Fails else Gives(r.value)
  }

  lemma {:induction false} ReadDeeper(t: Tables, d: Dictionary, bytes: Bytes, i: nat, depth: nat, more: nat)
    requires ValidTables(t) && depth <= more && !Read(t, d, bytes, i, depth).Deeper?
    ensures Read(t, d, bytes, i, more) == Read(t, d, bytes, i, depth)
    decreases depth, 8 * |bytes| - i
  {
    hide CodeAt, ValidTables;
    if i < 8 * |bytes| {
      var next := CodeAt(t, bytes, i);
      if next.Some? && i + next.value.length <= 8 * |bytes| && 0 <= next.value.code < |d| {
        var e := d[next.value.code];
        if !e.decompressed { ReadDeeper(t, d, e.value, 0, depth - 1, more - 1); }
        if e.decompressed || Read(t, d, e.value, 0, depth - 1).Gives? {
          ReadDeeper(t, d, bytes, i + next.value.length, depth, more);
        }
      }
    }
  }

  /** A text has at most one expansion. */
  lemma ExpansionIsUnique(t: Tables, d: Dictionary, bytes: Bytes, r: Option<Bytes>, s: Option<Bytes>)
    requires ValidTables(t) && ExpandsTo(t, d, bytes, r) && ExpandsTo(t, d, bytes, s)
    ensures r == s
  {
    hide Read;
    var x: nat :| Read(t, d, bytes, 0, x) == if r.None? then Fails else Gives(r.value);
    var y: nat :| Read(t, d, bytes, 0, y) == if s.None? then Fails else Gives(s.value);
    ReadDeeper(t, d, bytes, 0, if x <= y then x else y, if x <= y then y else x);
  }

  function AsOutcome(r: Option<Bytes>): Outcome {
    if r.None? then Fails else Gives(r.value)
  }

  /** Ranks bound the depth: with them, reading gives the expansion. */
  lemma {:induction false} ReadIsMeaning(t: Tables, d: Dictionary, rank: seq<nat>, bytes: Bytes, i: nat, bound: nat)
    requires ValidTables(t) && Ranked(t, d, rank) && Below(CodesFrom(t, bytes, i).codes, rank, bound)
    ensures Read(t, d, bytes, i, bound) == AsOutcome(Meaning(t, d, rank, CodesFrom(t, bytes, i), bound))
    decreases bound, 8 * |bytes| - i
  {
    hide CodeAt, ValidTables, Below, EntryMeaning, Meaning, CodesFrom, Ranked;
    if i >= 8 * |bytes| {
      CodesEnd(t, bytes, i);
      MeaningEnd(t, d, rank, bound);
    } else {
      CodesNext(t, bytes, i);
      var next, codes := CodeAt(t, bytes, i), CodesFrom(t, bytes, i);
      if next.None? {
        MeaningThrows(t, d, rank, bound, []);
        BothEmpty(Meaning(t, d, rank, Codes([], true), bound));
      } else if i + next.value.length > 8 * |bytes| {
        MeaningEnd(t, d, rank, bound);
      } else {
        var k := next.value.code;
        BelowRest(codes.codes, rank, bound);
        MeaningNext(t, d, rank, codes, bound);
        EntryIsExpanded(t, d, rank, k);
        ReadIsMeaning(t, d, rank, bytes, i + next.value.length, bound);
        if 0 <= k < |d| && !d[k].decompressed {
          ReadIsMeaning(t, d, rank, d[k].value, 0, rank[k]);
          ReadEntry(t, d, rank, k, bound);
        }
      }
    }
  }

  lemma ReadEntry(t: Tables, d: Dictionary, rank: seq<nat>, k: nat, bound: nat)
    requires ValidTables(t) && Ranked(t, d, rank) && k < |d| && !d[k].decompressed && rank[k] < bound
    requires !Read(t, d, d[k].value, 0, rank[k]).Deeper?
    ensures Read(t, d, d[k].value, 0, bound - 1) == Read(t, d, d[k].value, 0, rank[k])
  {
    ReadDeeper(t, d, d[k].value, 0, rank[k], bound - 1);
  }

  /** A decompressed entry is its value, a compressed one the expansion of it. */
  lemma EntryIsExpanded(t: Tables, d: Dictionary, rank: seq<nat>, k: int)
    requires ValidTables(t) && Ranked(t, d, rank)
    ensures |rank| == |d|
    ensures 0 <= k < |d| && !d[k].decompressed ==> Below(CodesFrom(t, d[k].value, 0).codes, rank, rank[k])
    ensures EntryMeaning(t, d, rank, k) ==
      if !(0 <= k < |d|) then None
      else if d[k].decompressed then Some(d[k].value)
      else Expansion(t, d, rank, d[k].value, rank[k])
  {
    hide CodesFrom, Below;
  }

  lemma MeaningExpands(t: Tables, d: Dictionary, rank: seq<nat>, bytes: Bytes, bound: nat)
    requires ValidTables(t) && Ranked(t, d, rank) && Below(CodesFrom(t, bytes, 0).codes, rank, bound)
    ensures ExpandsTo(t, d, bytes, Expansion(t, d, rank, bytes, bound))
  {
    hide Read, Meaning, CodesFrom;
    ReadIsMeaning(t, d, rank, bytes, 0, bound);
  }

  /** Whatever was expanded stays as it is. */
  predicate KeepsExpanded(before: Dictionary, after: Dictionary) {
    && |before| == |after|
    && forall k :: 0 <= k < |before| && before[k].decompressed ==> after[k] == before[k]
  }

  predicate AllExpanded(d: Dictionary, codes: seq<int>) {
    forall j :: 0 <= j < |codes| ==> 0 <= codes[j] < |d| && d[codes[j]].decompressed
  }

  lemma NothingExpanded(d: Dictionary)
    ensures KeepsExpanded(d, d) && AllExpanded(d, [])
  {
  }

  lemma ExpandedNext(first: Dictionary, before: Dictionary, after: Dictionary, done: seq<int>, code: int)
    requires KeepsExpanded(first, before) && KeepsExpanded(before, after) && AllExpanded(before, done)
    ensures KeepsExpanded(first, after)
    ensures 0 <= code < |after| && after[code].decompressed ==> AllExpanded(after, done + [code])
  {
  }

  // ---- the decompressor ----

  class Decompressor {
    const tables: Tables
    var dictionary: Dictionary
    /** The dictionary as it was loaded, and its ranks. */
    ghost const loaded: Dictionary
    ghost const rank: seq<nat>

    /** Every entry is as it was loaded, or holds its expansion. */
    ghost predicate Valid()
      reads this
    {
      && ValidTables(tables) && Ranked(tables, loaded, rank) && |dictionary| == |loaded|
      && forall k :: 0 <= k < |loaded| ==>
           dictionary[k] == loaded[k]
           || (dictionary[k].decompressed && EntryMeaning(tables, loaded, rank, k) == Some(dictionary[k].value))
    }

    constructor (tables: Tables, dictionary: Dictionary, ghost rank: seq<nat>)
      requires ValidTables(tables) && Ranked(tables, dictionary, rank)
      ensures Valid() && this.tables == tables && this.loaded == dictionary && this.rank == rank
      ensures this.dictionary == dictionary
    {
      this.tables, this.dictionary := tables, dictionary;
      this.loaded, this.rank := dictionary, rank;
    }

    /** The search for the length of a code that table1 does not decide. */
    method FindLength(bits: nat, start: nat) returns (r: Option<nat>)
      requires ValidTables(tables)
      ensures r == LongLength(tables, bits, start)
    {
      hide Pow2;
      var codeLength := start;
      while 0 < codeLength <= 32 && bits / Pow2(32 - codeLength) < tables.table2[codeLength].minCode
        invariant LongLength(tables, bits, codeLength) == LongLength(tables, bits, start)
        decreases 33 - codeLength
      {
        codeLength := codeLength + 1;
      }
      r := if codeLength == 0 || codeLength > 32 then None else Some(codeLength);
    }

    /** Reads the code at a position; None is the exception of mobi.js. */
    method ReadCode(bytes: Bytes, i: nat) returns (r: Option<Code>)
      requires ValidTables(tables)
      ensures r == CodeAt(tables, bytes, i)
    {
      hide Pow2, BitsFrom, LongLength;
      var bits := Read32Bits(bytes, i);
      FirstByte(bytes, i);
      var short := tables.table1[bits / 0x100_0000];
      assert short in tables.table1;
      if short.found {
        return Some(Code(short.value - bits / Pow2(32 - short.codeLength), short.codeLength));
      }
      var found := FindLength(bits, short.codeLength);
      if found.None? {
        return None;
      }
      var codeLength := found.value;
      var value := tables.table2[codeLength].maxCode;
      r := Some(Code(value - bits / Pow2(32 - codeLength), codeLength));
    }

    /** The expansion of an entry; a compressed entry is replaced by it. */
    method Lookup(code: int) returns (r: Option<Bytes>)
      requires Valid()
      modifies this`dictionary
      ensures Valid()
      ensures r == EntryMeaning(tables, loaded, rank, code)
      ensures !(0 <= code < |loaded|) ==> r.None?
      ensures 0 <= code < |loaded| ==>
        if loaded[code].decompressed then r == Some(loaded[code].value)
        else ExpandsTo(tables, loaded, loaded[code].value, r)
      ensures KeepsExpanded(old(dictionary), dictionary)
      ensures r.Some? ==> 0 <= code < |dictionary| && dictionary[code].decompressed
      decreases if 0 <= code < |rank| then 2 * rank[code] + 2 else 0
    {
      hide CodeAt, ValidTables, Below, CodesFrom, ExpandsTo, Expansion;
      EntryIsExpanded(tables, loaded, rank, code);
      if 0 <= code < |loaded| && !loaded[code].decompressed {
        MeaningExpands(tables, loaded, rank, loaded[code].value, rank[code]);
      }
      if !(0 <= code < |dictionary|) {
        return None;
      }
      var entry := dictionary[code];
      if entry.decompressed {
        return Some(entry.value);
      }
      r := Decompress(entry.value, rank[code]);
      if r.Some? {
        dictionary := dictionary[code := Entry(r.value, true)];
      }
    }

    /** The result is the expansion of the text by the dictionary as it was loaded, whatever has been
        cached before; every entry it used is cached afterwards, and what was cached stays. */
    method Decompress(bytes: Bytes, ghost bound: nat) returns (r: Option<Bytes>)
      requires Valid() && Below(CodesFrom(tables, bytes, 0).codes, rank, bound)
      modifies this`dictionary
      ensures Valid()
      ensures r == Expansion(tables, loaded, rank, bytes, bound)
      ensures ExpandsTo(tables, loaded, bytes, r)
      ensures KeepsExpanded(old(dictionary), dictionary)
      ensures r.Some? ==> AllExpanded(dictionary, CodesFrom(tables, bytes, 0).codes)
      decreases 2 * bound + 1
    {
      hide CodeAt, ValidTables, Below, BitsFrom, KeepsExpanded, AllExpanded, EntryMeaning, Meaning, Both, Ranked,
           CodesFrom, ExpandsTo;
      MeaningExpands(tables, loaded, rank, bytes, bound);
      var output: Bytes := [];
      var bitLength := 8 * |bytes|;
      var i := 0;
      ghost var all := CodesFrom(tables, bytes, 0);
      ghost var rest := all;
      ghost var done: seq<int> := [];
      BothEmpty(Meaning(tables, loaded, rank, all, bound));
      NothingExpanded(dictionary);
      while i < bitLength
        invariant Valid()
        invariant rest == CodesFrom(tables, bytes, i) && Below(rest.codes, rank, bound)
        invariant Both(Some(output), Meaning(tables, loaded, rank, rest, bound))
                  == Meaning(tables, loaded, rank, all, bound)
        invariant KeepsExpanded(old(dictionary), dictionary)
        invariant all.codes == done + rest.codes && AllExpanded(dictionary, done)
        decreases bitLength - i
      {
        ghost var before := dictionary;
        var next := ReadCode(bytes, i);
        CodesNext(tables, bytes, i);
        if next.None? {
          MeaningThrows(tables, loaded, rank, bound, output);
          return None;
        }
        i := i + next.value.length;
        if i > bitLength {
          break;
        }
        BelowRest(rest.codes, rank, bound);
        MeaningNext(tables, loaded, rank, rest, bound);
        var result := Lookup(next.value.code);
        ExpandedNext(old(dictionary), before, dictionary, done, next.value.code);
        BothJoins(output, result, Meaning(tables, loaded, rank, Codes(rest.codes[1..], rest.throws), bound));
        if result.None? {
          return None;
        }
        done := done + [next.value.code];
        output := output + result.value;
        rest := CodesFrom(tables, bytes, i);
      }
      CodesEnd(tables, bytes, i);
      MeaningEnd(tables, loaded, rank, bound);
      BothEmpty(Some(output));
      assert done + [] == done;
      r := Some(output);
    }
  }
}
