/** base64.RawURLEncoding over UTF-8, as the category sort keys use it
    (backend/storage/library_indexes.go). Two facts about it matter to the index: the
    encoding is injective, and it never produces the NUL key separator. A third one, about
    UTF-8 alone, carries every key order over to the stored bytes. */
module Base64 {
  import opened ByteOrder

  newtype byte = n: int | 0 <= n < 256

  /** The length of a code, as its first byte announces it. */
  function Utf8Length(first: byte): int {
    if first < 0x80 then 1 else if first < 0xE0 then 2 else if first < 0xF0 then 3 else 4
  }

  function Utf8Char(c: char): (r: seq<byte>)
    ensures 1 <= |r| == Utf8Length(r[0])
  {
    var n := c as int;
    if n < 0x80 then [n as byte]
    else if n < 0x800 then [(0xC0 + n / 0x40) as byte, (0x80 + n % 0x40) as byte]
    else if n < 0x10000 then
      [(0xE0 + n / 0x1000) as byte, (0x80 + n / 0x40 % 0x40) as byte, (0x80 + n % 0x40) as byte]
    else
      [(0xF0 + n / 0x40000) as byte, (0x80 + n / 0x1000 % 0x40) as byte,
       (0x80 + n / 0x40 % 0x40) as byte, (0x80 + n % 0x40) as byte]
  }

  /** The codes of section 3 of RFC 3629: the leading bits of the first byte give the length, and the
      other bits are those of the character, six in each further byte. */
  lemma Utf8CharIs(c: char)
    ensures var n, r := c as int, Utf8Char(c);
            && |r| == (if n <= 0x7F then 1 else if n <= 0x7FF then 2 else if n <= 0xFFFF then 3 else 4)
            && (forall i :: 1 <= i < |r| ==> 0x80 <= r[i] as int < 0xC0)
            && (|r| == 1 ==> r[0] as int == n)
            && (|r| == 2 ==>
                0xC0 <= r[0] as int < 0xE0 && n == (r[0] as int - 0xC0) * 0x40 + (r[1] as int - 0x80))
            && (|r| == 3 ==>
                0xE0 <= r[0] as int < 0xF0
                && n == (r[0] as int - 0xE0) * 0x1000 + (r[1] as int - 0x80) * 0x40 + (r[2] as int - 0x80))
            && (|r| == 4 ==>
                0xF0 <= r[0] as int < 0xF8
                && n == (r[0] as int - 0xF0) * 0x40000 + (r[1] as int - 0x80) * 0x1000
                        + (r[2] as int - 0x80) * 0x40 + (r[3] as int - 0x80))
  {
    var n := c as int;
    DivideTwice(n);
    assert n == n / 0x40 * 0x40 + n % 0x40;
    assert n / 0x40 == n / 0x40 / 0x40 * 0x40 + n / 0x40 % 0x40;
    assert n / 0x1000 == n / 0x1000 / 0x40 * 0x40 + n / 0x1000 % 0x40;
  }

  function Utf8(s: string): seq<byte> {
    if s == [] then [] else Utf8Char(s[0]) + Utf8(s[1..])
  }

  lemma SplitBySixBits(m: int, n: int, q: int)
    requires q > 0 && m / q / 0x40 == n / q / 0x40 && m / q % 0x40 == n / q % 0x40
    ensures m / q == n / q
  {
    var x, y := m / q, n / q;
    assert x == x / 0x40 * 0x40 + x % 0x40;
    assert y == y / 0x40 * 0x40 + y % 0x40;
  }

  lemma DivideTwice(m: nat)
    ensures m / 0x40 / 0x40 == m / 0x1000 && m / 0x1000 / 0x40 == m / 0x40000
  {
  }

  /** The code of a character determines the character. */
  lemma Utf8CharInjective(c: char, d: char)
    requires Utf8Char(c) == Utf8Char(d)
    ensures c == d
  {
    var a, b, m, n := Utf8Char(c), Utf8Char(d), c as int, d as int;
    assert m == n by {
      DivideTwice(m);
      DivideTwice(n);
      assert a[0] == b[0];
      if |a| == 2 {
        assert a[1] == b[1];
        SplitBySixBits(m, n, 1);
      } else if |a| == 3 {
        assert a[1] == b[1] && a[2] == b[2];
        SplitBySixBits(m, n, 0x40);
        SplitBySixBits(m, n, 1);
      } else if |a| == 4 {
        assert a[1] == b[1] && a[2] == b[2] && a[3] == b[3];
        SplitBySixBits(m, n, 0x1000);
        SplitBySixBits(m, n, 0x40);
        SplitBySixBits(m, n, 1);
      }
    }
    assert m as char == n as char;
  }

  /** The code of one character is never a prefix of another's. */
  lemma Utf8PrefixFree(c: char, x: seq<byte>, d: char, y: seq<byte>)
    requires Utf8Char(c) + x == Utf8Char(d) + y
    ensures c == d && x == y
  {
    var a, b, all := Utf8Char(c), Utf8Char(d), Utf8Char(c) + x;
    assert a[0] == all[0] == b[0];
    assert |a| == Utf8Length(a[0]) && |b| == Utf8Length(b[0]);
    assert a == all[..|a|] && b == all[..|b|];
    assert x == all[|a|..] == y;
    Utf8CharInjective(c, d);
  }

  lemma {:induction false} Utf8Injective(s: string, t: string)
    requires Utf8(s) == Utf8(t)
    ensures s == t
  {
    if s != [] && t != [] {
      Utf8PrefixFree(s[0], Utf8(s[1..]), t[0], Utf8(t[1..]));
      Utf8Injective(s[1..], t[1..]);
      assert s == [s[0]] + s[1..] && t == [t[0]] + t[1..];
    }
  }

  // ---- the order of the bytes ----

  /** x comes strictly before y as bytes.Compare has it. */
  predicate BytesBefore(x: seq<byte>, y: seq<byte>) {
    y != [] && (x == [] || x[0] < y[0] || (x[0] == y[0] && BytesBefore(x[1..], y[1..])))
  }

  /** The first difference decides. */
  lemma {:induction false} FirstDifference(x: seq<byte>, y: seq<byte>, k: nat)
    requires k < |x| && k < |y| && x[..k] == y[..k] && x[k] < y[k]
    ensures BytesBefore(x, y) && !BytesBefore(y, x)
    decreases k
  {
    if k > 0 {
      assert x[0] == x[..k][0] == y[..k][0] == y[0];
      assert x[1..][..k - 1] == x[..k][1..] && y[1..][..k - 1] == y[..k][1..];
      FirstDifference(x[1..], y[1..], k - 1);
    }
  }

  lemma {:induction false} SameStart(p: seq<byte>, x: seq<byte>, y: seq<byte>)
    ensures BytesBefore(p + x, p + y) <==> BytesBefore(x, y)
  {
    if p == [] {
      assert p + x == x && p + y == y;
    } else {
      assert (p + x)[1..] == p[1..] + x && (p + y)[1..] == p[1..] + y;
      SameStart(p[1..], x, y);
    }
  }

  /** Below equal higher digits, the digits to base 64 order like the numbers. */
  lemma DigitOrder(m: nat, n: nat, q: nat)
    requires q > 0 && m <= n && m / q / 0x40 == n / q / 0x40
    ensures m / q % 0x40 <= n / q % 0x40
    ensures m / q % 0x40 == n / q % 0x40 ==> m / q == n / q
  {
    DivideOrder(m, n, q);
    var x, y := m / q, n / q;
    assert x == x / 0x40 * 0x40 + x % 0x40;
    assert y == y / 0x40 * 0x40 + y % 0x40;
  }

  lemma DivideOrder(m: nat, n: nat, q: nat)
    requires q > 0 && m <= n
    ensures m / q <= n / q
  {
    var d := m / q - n / q;
    Multiple(q, d);
    assert m == q * (m / q) + m % q && n == q * (n / q) + n % q;
    assert q * (m / q) - q * (n / q) == q * d;
  }

  lemma Multiple(q: nat, d: int)
    ensures d >= 1 ==> q * d >= q
  {
  }

  /** The codes of two characters differ first where the greater character has the greater byte. */
  lemma Utf8CharOrder(c: char, d: char) returns (k: nat)
    requires c < d
    ensures var a, b := Utf8Char(c), Utf8Char(d);
            k < |a| && k < |b| && a[..k] == b[..k] && a[k] < b[k]
  {
    var m, n := c as int, d as int;
    k := 0;
    if 0x80 <= m && n < 0x800 {
      k := TwoDigits(m, n);
    } else if 0x800 <= m && n < 0x10000 {
      k := ThreeDigits(m, n);
    } else if 0x10000 <= m {
      k := FourDigits(m, n);
    }
  }

  /** Of numbers with two digits to base 64, how many leading ones they share. */
  lemma TwoDigits(m: nat, n: nat) returns (k: nat)
    requires m < n
    ensures k == 0 ==> m / 0x40 < n / 0x40
    ensures k > 0 ==> k == 1 && m / 0x40 == n / 0x40 && m % 0x40 < n % 0x40
  {
    DivideOrder(m, n, 0x40);
    k := 0;
    if m / 0x40 == n / 0x40 {
      DigitOrder(m, n, 1);
      k := 1;
    }
  }

  lemma ThreeDigits(m: nat, n: nat) returns (k: nat)
    requires m < n
    ensures k == 0 ==> m / 0x1000 < n / 0x1000
    ensures k > 0 ==> k <= 2 && m / 0x1000 == n / 0x1000
    ensures k == 1 ==> m / 0x40 % 0x40 < n / 0x40 % 0x40
    ensures k == 2 ==> m / 0x40 % 0x40 == n / 0x40 % 0x40 && m % 0x40 < n % 0x40
  {
    DivideTwice(m);
    DivideTwice(n);
    DivideOrder(m, n, 0x1000);
    k := TwoDigits(m, n);
    if m / 0x1000 == n / 0x1000 {
      DigitOrder(m, n, 0x40);
      k := k + 1;
    } else {
      k := 0;
    }
  }

  lemma FourDigits(m: nat, n: nat) returns (k: nat)
    requires m < n
    ensures k == 0 ==> m / 0x40000 < n / 0x40000
    ensures k > 0 ==> k <= 3 && m / 0x40000 == n / 0x40000
    ensures k == 1 ==> m / 0x1000 % 0x40 < n / 0x1000 % 0x40
    ensures k > 1 ==> m / 0x1000 % 0x40 == n / 0x1000 % 0x40
    ensures k == 2 ==> m / 0x40 % 0x40 < n / 0x40 % 0x40
    ensures k == 3 ==> m / 0x40 % 0x40 == n / 0x40 % 0x40 && m % 0x40 < n % 0x40
  {
    DivideTwice(m);
    DivideTwice(n);
    DivideOrder(m, n, 0x40000);
    k := ThreeDigits(m, n);
    if m / 0x40000 == n / 0x40000 {
      DigitOrder(m, n, 0x1000);
      k := k + 1;
    } else {
      k := 0;
    }
  }

  /** The order of texts is the byte order of their UTF-8: what orders keys as code points orders
      the stored bytes. */
  lemma {:induction false} Utf8Order(s: string, t: string)
    ensures BytesBefore(Utf8(s), Utf8(t)) <==> Before(s, t)
  {
    if s != [] && t != [] {
      var a, b := Utf8Char(s[0]), Utf8Char(t[0]);
      var x, y := Utf8(s[1..]), Utf8(t[1..]);
      if s[0] == t[0] {
        SameStart(a, x, y);
        Utf8Order(s[1..], t[1..]);
      } else if s[0] < t[0] {
        var k := Utf8CharOrder(s[0], t[0]);
        StaysAhead(a, x, k);
        StaysAhead(b, y, k);
        FirstDifference(a + x, b + y, k);
      } else {
        var k := Utf8CharOrder(t[0], s[0]);
        StaysAhead(a, x, k);
        StaysAhead(b, y, k);
        FirstDifference(b + y, a + x, k);
      }
    }
  }

  lemma StaysAhead(a: seq<byte>, x: seq<byte>, k: nat)
    requires k < |a|
    ensures (a + x)[..k] == a[..k] && (a + x)[k] == a[k]
  {
  }

  lemma {:induction false} Utf8Concat(a: string, b: string)
    ensures Utf8(a + b) == Utf8(a) + Utf8(b)
  {
    if a == [] {
      assert a + b == b;
    } else {
      assert (a + b)[1..] == a[1..] + b;
      Utf8Concat(a[1..], b);
    }
  }

  lemma {:induction false} Utf8Leads(p: string, s: string, z: seq<byte>)
    requires Utf8(s) == Utf8(p) + z
    ensures p <= s
  {
    if p != [] && s != [] {
      assert Utf8(p) + z == Utf8Char(p[0]) + (Utf8(p[1..]) + z);
      Utf8PrefixFree(p[0], Utf8(p[1..]) + z, s[0], Utf8(s[1..]));
      Utf8Leads(p[1..], s[1..], z);
    }
  }

  /** And a prefix of a text is a prefix of its bytes, and the other way round. */
  lemma Utf8Prefix(p: string, s: string)
    ensures Utf8(p) <= Utf8(s) <==> p <= s
  {
    if p <= s {
      assert s == p + s[|p|..];
      Utf8Concat(p, s[|p|..]);
    }
    if Utf8(p) <= Utf8(s) {
      Utf8Leads(p, s, Utf8(s)[|Utf8(p)|..]);
    }
  }

  // ---- base 64 ----

  function Symbol(n: int): (c: char)
    requires 0 <= n < 64
    ensures c != '\0'
  {
    if n < 26 then 'A' + n as char
    else if n < 52 then 'a' + (n - 26) as char
    else if n < 62 then '0' + (n - 52) as char
    else if n == 62 then '-'
    else '_'
  }

  lemma SymbolInjective(m: int, n: int)
    requires 0 <= m < 64 && 0 <= n < 64 && Symbol(m) == Symbol(n)
    ensures m == n
  {
  }

  /** The alphabet of section 5 of RFC 4648: capitals, small letters, digits, each in order, then minus
      and underline. */
  lemma SymbolIs(n: int)
    requires 0 <= n < 64
    ensures Symbol(0) == 'A' && Symbol(25) == 'Z' && Symbol(26) == 'a' && Symbol(51) == 'z'
    ensures Symbol(52) == '0' && Symbol(61) == '9' && Symbol(62) == '-' && Symbol(63) == '_'
    ensures n + 1 < 62 && n !in {25, 51} ==> Symbol(n + 1) as int == Symbol(n) as int + 1
  {
  }

  function High(a: byte): (n: int)
    ensures 0 <= n < 64
  {
    a as int / 4
  }

  function Second(a: byte, b: byte): (n: int)
    ensures 0 <= n < 64
  {
    a as int % 4 * 16 + b as int / 16
  }

  function Third(b: byte, c: byte): (n: int)
    ensures 0 <= n < 64
  {
    b as int % 16 * 4 + c as int / 64
  }

  function Low(c: byte): (n: int)
    ensures 0 <= n < 64
  {
    c as int % 64
  }

  /** The four symbols of a group carry the bits of its three bytes, six by six (section 4 of RFC 4648);
      of a shorter group, the same with zeros behind. */
  lemma GroupIs(a: byte, b: byte, c: byte)
    ensures ((High(a) * 64 + Second(a, b)) * 64 + Third(b, c)) * 64 + Low(c)
            == a as int * 0x1_0000 + b as int * 0x100 + c as int
  {
  }

  function Encode(bs: seq<byte>): string {
    if bs == [] then ""
    else if |bs| == 1 then [Symbol(High(bs[0])), Symbol(Second(bs[0], 0))]
    else if |bs| == 2 then [Symbol(High(bs[0])), Symbol(Second(bs[0], bs[1])), Symbol(Third(bs[1], 0))]
    else
      [Symbol(High(bs[0])), Symbol(Second(bs[0], bs[1])), Symbol(Third(bs[1], bs[2])), Symbol(Low(bs[2]))]
      + Encode(bs[3..])
  }

  lemma {:induction false} EncodeLength(bs: seq<byte>)
    ensures |Encode(bs)| == |bs| / 3 * 4 + (if |bs| % 3 == 0 then 0 else |bs| % 3 + 1)
  {
    if |bs| >= 3 { EncodeLength(bs[3..]); }
  }

  lemma HighAndLow(a: int, b: int, q: int)
    requires q > 0 && a / q == b / q && a % q == b % q
    ensures a == b
  {
    assert a == a / q * q + a % q && b == b / q * q + b % q;
  }

  /** The second symbol of a group carries two bits of one byte and four of the next. */
  lemma FirstByte(a: byte, b: byte, x: byte, y: byte)
    requires High(a) == High(x) && Second(a, b) == Second(x, y)
    ensures a == x && b as int / 16 == y as int / 16
  {
    assert 0 <= b as int / 16 < 16 && 0 <= y as int / 16 < 16;
    HighAndLow(a as int, x as int, 4);
  }

  lemma SecondByte(b: byte, c: byte, y: byte, z: byte)
    requires b as int / 16 == y as int / 16 && Third(b, c) == Third(y, z)
    ensures b == y && c as int / 64 == z as int / 64
  {
    assert 0 <= c as int / 64 < 4 && 0 <= z as int / 64 < 4;
    HighAndLow(b as int, y as int, 16);
  }

  lemma LastByte(c: byte, g: byte)
    requires c as int / 64 == g as int / 64 && Low(c) == Low(g)
    ensures c == g
  {
    HighAndLow(c as int, g as int, 64);
  }

  /** Group by group, the symbols give the bytes back. */
  lemma {:induction false} EncodeInjective(x: seq<byte>, y: seq<byte>)
    requires Encode(x) == Encode(y)
    ensures x == y
  {
    hide Symbol, High, Second, Third, Low;
    EncodeLength(x);
    EncodeLength(y);
    assert |x| == |y|;
    if x != [] {
      var e, f := Encode(x), Encode(y);
      var b, d: byte := if |x| > 1 then x[1] else 0, if |y| > 1 then y[1] else 0;
      var c, g: byte := if |x| > 2 then x[2] else 0, if |y| > 2 then y[2] else 0;
      assert e[0] == f[0] && e[1] == f[1];
      SymbolInjective(High(x[0]), High(y[0]));
      SymbolInjective(Second(x[0], b), Second(y[0], d));
      FirstByte(x[0], b, y[0], d);
      if |x| > 1 {
        assert e[2] == f[2];
        SymbolInjective(Third(b, c), Third(d, g));
        SecondByte(b, c, d, g);
      }
      if |x| > 2 {
        assert e[3] == f[3];
        SymbolInjective(Low(c), Low(g));
        LastByte(c, g);
        assert e[4..] == Encode(x[3..]) && f[4..] == Encode(y[3..]);
        EncodeInjective(x[3..], y[3..]);
        assert x == [x[0], b, c] + x[3..] && y == [y[0], d, g] + y[3..];
      }
    }
  }

  lemma {:induction false} EncodeNoNul(bs: seq<byte>)
    ensures '\0' !in Encode(bs)
  {
    if |bs| >= 3 { EncodeNoNul(bs[3..]); }
  }

  /** The category component of a category sort key. */
  function CategoryTag(category: string): string {
    Encode(Utf8(category))
  }

  lemma CategoryTagNoNul(c: string)
    ensures '\0' !in CategoryTag(c)
  {
    EncodeNoNul(Utf8(c));
  }

  lemma CategoryTagInjective(c: string, d: string)
    requires CategoryTag(c) == CategoryTag(d)
    ensures c == d
  {
    EncodeInjective(Utf8(c), Utf8(d));
    Utf8Injective(c, d);
  }
}
