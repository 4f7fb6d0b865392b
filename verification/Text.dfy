/** Search-text normalisation and two-rune grams (backend/storage/db.go). */
module Text {
  /** unicode.IsSpace. */
  predicate IsSpace(c: char) {
    c in {'\t', '\n', '\U{0B}', '\U{0C}', '\r', ' ', '\U{85}', '\U{A0}', '\U{1680}',
          '\U{2028}', '\U{2029}', '\U{202F}', '\U{205F}', '\U{3000}'}
    || '\U{2000}' <= c <= '\U{200A}'
  }

  /** The characters with the White_Space property of Unicode, by code point. */
  lemma SpacesAre(c: char)
    ensures IsSpace(c) <==>
      var n := c as int;
      0x09 <= n <= 0x0D || n in {0x20, 0x85, 0xA0, 0x1680} || 0x2000 <= n <= 0x200A
      || n in {0x2028, 0x2029, 0x202F, 0x205F, 0x3000}
  {
  }

  type Lowering = char -> char

  /** Rune lowercasing, known only by its laws: it is idempotent and leaves
      whitespace and NUL alone, neither creating nor removing them. */
  ghost predicate IsLowering(f: Lowering) {
    && (forall c :: f(f(c)) == f(c))
    && (forall c :: IsSpace(c) ==> f(c) == c)
    && (forall c :: IsSpace(f(c)) ==> IsSpace(c))
    && (forall c :: f(c) == '\0' <==> c == '\0')
  }

  function ToLower(lower: Lowering, s: string): (r: string)
    ensures |r| == |s| && forall i :: 0 <= i < |s| ==> r[i] == lower(s[i])
  {
    seq(|s|, i requires 0 <= i < |s| => lower(s[i]))
  }

  function TrimLeft(s: string): (r: string)
    ensures r != [] ==> !IsSpace(r[0])
    ensures forall c :: c in r ==> c in s
  {
    if s != [] && IsSpace(s[0]) then TrimLeft(s[1..]) else s
  }

  function TrimRight(s: string): (r: string)
    ensures r <= s
    ensures r != [] ==> !IsSpace(r[|r| - 1])
  {
    if s != [] && IsSpace(s[|s| - 1]) then TrimRight(s[..|s| - 1]) else s
  }

  /** strings.TrimSpace. */
  function TrimSpace(s: string): (r: string)
    ensures r != [] ==> !IsSpace(r[0]) && !IsSpace(r[|r| - 1])
    ensures forall c :: c in r ==> c in s
  {
    var l := TrimLeft(s);
    assert TrimRight(l) != [] ==> TrimRight(l)[0] == l[0];
    TrimRight(l)
  }

  lemma TrimIdempotent(s: string)
    ensures TrimSpace(TrimSpace(s)) == TrimSpace(s)
  {
  }

  // ---- what trimming leaves ----

  predicate AllSpace(s: string) {
    forall c <- s :: IsSpace(c)
  }

  /** No white space at either end. */
  predicate NoSpaceAround(t: string) {
    t != "" ==> !IsSpace(t[0]) && !IsSpace(t[|t| - 1])
  }

  lemma {:induction false} TrimLeftDrops(x: string, t: string)
    requires AllSpace(x) && (t != "" ==> !IsSpace(t[0]))
    ensures TrimLeft(x + t) == t
  {
    if x == "" {
      assert x + t == t;
    } else {
      assert (x + t)[0] == x[0] && x[0] in x && (x + t)[1..] == x[1..] + t;
      TrimLeftDrops(x[1..], t);
    }
  }

  lemma {:induction false} TrimRightDrops(t: string, y: string)
    requires AllSpace(y) && (t != "" ==> !IsSpace(t[|t| - 1]))
    ensures TrimRight(t + y) == t
  {
    if y == "" {
      assert t + y == t;
    } else {
      var s, init := t + y, y[..|y| - 1];
      assert s[|s| - 1] == y[|y| - 1] && y[|y| - 1] in y && s[..|s| - 1] == t + init;
      TrimRightDrops(t, init);
    }
  }

  /** Of a text between white space, trimming leaves the text; of white space alone, nothing. */
  lemma TrimSpaceOf(x: string, t: string, y: string)
    requires AllSpace(x) && AllSpace(y) && NoSpaceAround(t)
    ensures TrimSpace(x + t + y) == t
  {
    assert x + t + y == x + (t + y);
    if t == "" {
      assert AllSpace(x + y);
      assert x + t + y == (x + y) + "";
      TrimLeftDrops(x + y, "");
    } else {
      TrimLeftDrops(x, t + y);
      TrimRightDrops(t, y);
    }
  }

  /** Every text is of that form. */
  lemma {:induction false} TrimSplits(s: string) returns (x: string, y: string)
    ensures AllSpace(x) && AllSpace(y) && NoSpaceAround(TrimSpace(s)) && s == x + TrimSpace(s) + y
  {
    if s == "" {
      x, y := "", "";
    } else if IsSpace(s[0]) {
      var x', y' := TrimSplits(s[1..]);
      x, y := [s[0]] + x', y';
    } else {
      x := "";
      y := RightSplits(s);
    }
  }

  /** The text is t between white space, if any. */
  ghost predicate IsAround(s: string, t: string) {
    NoSpaceAround(t) && exists x, y :: AllSpace(x) && AllSpace(y) && s == x + t + y
  }

  /** Trimming gives the one text without white space around it that the given text is around. */
  lemma TrimSpaceIs(s: string, t: string)
    ensures TrimSpace(s) == t <==> IsAround(s, t)
  {
    if TrimSpace(s) == t {
      var x, y := TrimSplits(s);
    }
    if IsAround(s, t) {
      var x, y :| AllSpace(x) && AllSpace(y) && s == x + t + y;
      TrimSpaceOf(x, t, y);
    }
  }

  lemma {:induction false} RightSplits(s: string) returns (y: string)
    ensures AllSpace(y) && s == TrimRight(s) + y
  {
    if s != "" && IsSpace(s[|s| - 1]) {
      var y' := RightSplits(s[..|s| - 1]);
      y := y' + [s[|s| - 1]];
    } else {
      y := "";
    }
  }

  /** strings.ReplaceAll(s, "\x00", ""). */
  function RemoveNul(s: string): (r: string)
    ensures '\0' !in r
    ensures forall c :: c in r ==> c in s
    ensures '\0' !in s ==> r == s
  {
    if s == [] then [] else
      var rest := RemoveNul(s[1..]);
      assert s == [s[0]] + s[1..];
      if s[0] == '\0' then rest else [s[0]] + rest
  }

  /** It drops exactly the NULs, and keeps the order. */
  lemma {:induction false} RemoveNulConcat(s: string, t: string)
    ensures RemoveNul(s + t) == RemoveNul(s) + RemoveNul(t)
  {
    if s == "" {
      assert s + t == t;
    } else {
      assert (s + t)[1..] == s[1..] + t;
      RemoveNulConcat(s[1..], t);
    }
  }

  predicate IsWord(w: string) {
    w != [] && forall c <- w :: !IsSpace(c)
  }

  function WordLength(s: string): (n: nat)
    ensures n <= |s|
    ensures forall i :: 0 <= i < n ==> !IsSpace(s[i])
    ensures n < |s| ==> IsSpace(s[n])
  {
    if s == [] || IsSpace(s[0]) then 0 else 1 + WordLength(s[1..])
  }

  /** strings.Fields. */
  function Fields(s: string): (ws: seq<string>)
    ensures forall w <- ws :: IsWord(w)
    ensures forall w <- ws, c <- w :: c in s
    decreases |s|
  {
    if s == [] then []
    else if IsSpace(s[0]) then Fields(s[1..])
    else
      var n := WordLength(s);
      assert forall c <- s[..n] :: !IsSpace(c);
      [s[..n]] + Fields(s[n..])
  }

  /** strings.Join(ws, " "). */
  function JoinWords(ws: seq<string>): (s: string)
    ensures forall c :: c in s ==> c == ' ' || exists w :: w in ws && c in w
  {
    if ws == [] then ""
    else if |ws| == 1 then ws[0]
    else ws[0] + " " + JoinWords(ws[1..])
  }

  lemma WordLengthOf(w: string, rest: string)
    requires IsWord(w)
    requires rest == [] || IsSpace(rest[0])
    ensures WordLength(w + rest) == |w|
  {
    assert forall i :: 0 <= i < |w| ==> (w + rest)[i] == w[i] && w[i] in w;
    assert rest != [] ==> (w + rest)[|w|] == rest[0];
  }

  /** Splitting undoes joining, for words. */
  lemma {:induction false} FieldsOfJoin(ws: seq<string>)
    requires forall w <- ws :: IsWord(w)
    ensures Fields(JoinWords(ws)) == ws
  {
    if ws != [] {
      var rest := if |ws| == 1 then "" else " " + JoinWords(ws[1..]);
      var s := JoinWords(ws);
      assert ws[0] in ws;
      assert s == ws[0] + rest;
      WordLengthOf(ws[0], rest);
      assert ws[0][0] in ws[0];
      assert s[..|ws[0]|] == ws[0] && s[|ws[0]|..] == rest;
      if |ws| > 1 {
        assert rest[1..] == JoinWords(ws[1..]);
        FieldsOfJoin(ws[1..]);
      }
      assert ws == [ws[0]] + ws[1..];
    }
  }

  lemma {:induction false} JoinEnds(ws: seq<string>)
    requires forall w <- ws :: IsWord(w)
    ensures JoinWords(ws) != [] ==> !IsSpace(JoinWords(ws)[0]) && !IsSpace(JoinWords(ws)[|JoinWords(ws)| - 1])
    ensures ws != [] ==> JoinWords(ws) != []
  {
    if ws != [] {
      assert ws[0] in ws && ws[0][0] in ws[0] && ws[0][|ws[0]| - 1] in ws[0];
      if |ws| > 1 { JoinEnds(ws[1..]); }
    }
  }

  function Normalize(lower: Lowering, s: string): (r: string)
    ensures '\0' !in r
  {
    var t := RemoveNul(ToLower(lower, TrimSpace(s)));
    var ws := Fields(t);
    JoinWords(ws)
  }

  /** Normalising twice changes nothing. The gram functions rely on this: they
      normalise text that is already normalised. */
  lemma NormalizeIdempotent(lower: Lowering, s: string)
    requires IsLowering(lower)
    ensures Normalize(lower, Normalize(lower, s)) == Normalize(lower, s)
  {
    var low := ToLower(lower, TrimSpace(s));
    var t := RemoveNul(low);
    var ws := Fields(t);
    var r := JoinWords(ws);
    JoinEnds(ws);
    assert TrimSpace(r) == r;
    forall i | 0 <= i < |r| ensures lower(r[i]) == r[i] {
      assert r[i] in r;
      if r[i] != ' ' {
        var w :| w in ws && r[i] in w;
        assert r[i] in t && r[i] in low;
        var j :| 0 <= j < |low| && low[j] == r[i];
        assert low[j] == lower(TrimSpace(s)[j]);
      } else {
        assert IsSpace(' ');
      }
    }
    assert ToLower(lower, r) == r;
    assert RemoveNul(r) == r;
    FieldsOfJoin(ws);
  }

  // ---- substring match and grams ----

  /** bytes.Contains on normalised text. */
  predicate Contains(text: string, query: string) {
    exists i :: 0 <= i <= |text| - |query| && text[i..][..|query|] == query
  }

  /** The query is a stretch of the text. */
  lemma ContainsIs(text: string, query: string)
    ensures Contains(text, query) <==> exists x, y :: text == x + query + y
  {
    if i :| 0 <= i <= |text| - |query| && text[i..][..|query|] == query {
      assert text == text[..i] + query + text[i..][|query|..];
    }
    if x, y :| text == x + query + y {
      assert text[|x|..][..|query|] == query;
    }
  }

  function Gram(text: string, i: nat): string
    requires i + 1 < |text|
  {
    text[i..i + 2]
  }

  ghost function GramsOf(text: string): set<string> {
    set i | 0 <= i < |text| - 1 :: Gram(text, i)
  }

  lemma GramInside(text: string, query: string, i: nat, j: nat)
    requires i + |query| <= |text| && text[i..][..|query|] == query && j + 1 < |query|
    ensures Gram(text, i + j) == Gram(query, j)
  {
    var found := text[i..][..|query|];
    assert query[j] == found[j] == text[i..][j] == text[i + j];
    assert query[j + 1] == found[j + 1] == text[i..][j + 1] == text[i + j + 1];
    assert Gram(text, i + j) == [text[i + j], text[i + j + 1]] && Gram(query, j) == [query[j], query[j + 1]];
  }

  /** Every gram of a matching query is a gram of the text. */
  lemma GramsOfMatch(text: string, query: string)
    requires Contains(text, query)
    ensures GramsOf(query) <= GramsOf(text)
  {
    var i :| 0 <= i <= |text| - |query| && text[i..][..|query|] == query;
    forall g | g in GramsOf(query) ensures g in GramsOf(text) {
      var j :| 0 <= j < |query| - 1 && g == Gram(query, j);
      GramInside(text, query, i, j);
    }
  }

  // ---- the words of a normal text ----

  /** The words of two texts with white space between them. */
  lemma {:induction false} FieldsConcat(s: string, c: char, t: string)
    requires IsSpace(c)
    ensures Fields(s + [c] + t) == Fields(s) + Fields(t)
    decreases |s|
  {
    hide IsSpace, WordLength;
    var all := s + [c] + t;
    if s == "" {
      assert all == [c] + t && all[1..] == t;
    } else if IsSpace(s[0]) {
      assert all[1..] == s[1..] + [c] + t;
      FieldsConcat(s[1..], c, t);
    } else {
      var n := WordLength(s);
      WordLengthPrefix(s, [c] + t);
      assert all == s + ([c] + t);
      assert all[..n] == s[..n] && all[n..] == s[n..] + [c] + t;
      FieldsConcat(s[n..], c, t);
      assert [s[..n]] + (Fields(s[n..]) + Fields(t)) == [s[..n]] + Fields(s[n..]) + Fields(t);
    }
  }

  lemma {:induction false} WordLengthPrefix(s: string, t: string)
    requires s != "" && !IsSpace(s[0]) && (t == "" || IsSpace(t[0]))
    ensures WordLength(s + t) == WordLength(s) > 0
  {
    if |s| > 1 && !IsSpace(s[1]) {
      assert (s + t)[1..] == s[1..] + t;
      WordLengthPrefix(s[1..], t);
    } else {
      assert (s + t)[1..] == s[1..] + t;
      assert s[1..] == "" ==> s[1..] + t == t;
      assert |s| > 1 ==> (s[1..] + t)[0] == s[1];
    }
  }

  lemma FieldsOfWord(w: string)
    requires IsWord(w)
    ensures Fields(w) == [w]
  {
    WordLengthOf(w, "");
    assert w + "" == w && w[0] in w && w[..|w|] == w && w[|w|..] == "";
  }

  /** Joining puts one space between words. */
  lemma {:induction false} JoinConcat(v: seq<string>, w: seq<string>)
    ensures JoinWords(v + w) ==
      if v == [] then JoinWords(w) else if w == [] then JoinWords(v) else JoinWords(v) + " " + JoinWords(w)
  {
    if v == [] {
      assert v + w == w;
    } else if w == [] {
      assert v + w == v;
    } else {
      assert (v + w)[1..] == v[1..] + w;
      JoinConcat(v[1..], w);
    }
  }

  /** The words as a search text has them: in lower case, without NULs, and none that is left empty. */
  function CleanWords(lower: Lowering, ws: seq<string>): (r: seq<string>)
    ensures |r| <= |ws|
  {
    if ws == [] then []
    else
      var w := RemoveNul(ToLower(lower, ws[0]));
      (if w == "" then [] else [w]) + CleanWords(lower, ws[1..])
  }

  lemma {:induction false} CleanConcat(lower: Lowering, v: seq<string>, w: seq<string>)
    ensures CleanWords(lower, v + w) == CleanWords(lower, v) + CleanWords(lower, w)
  {
    hide RemoveNul, ToLower;
    if v == [] {
      assert v + w == w;
    } else {
      assert (v + w)[1..] == v[1..] + w;
      CleanConcat(lower, v[1..], w);
    }
  }

  lemma ToLowerConcat(lower: Lowering, s: string, t: string)
    ensures ToLower(lower, s + t) == ToLower(lower, s) + ToLower(lower, t)
  {
  }

  /** White space around a text does not change its words. */
  lemma {:induction false} FieldsOfSpace(x: string)
    requires AllSpace(x)
    ensures Fields(x) == []
  {
    if x != "" {
      assert x[0] in x;
      FieldsOfSpace(x[1..]);
    }
  }

  lemma {:induction false} FieldsAfterSpace(x: string, t: string)
    requires AllSpace(x)
    ensures Fields(x + t) == Fields(t)
  {
    if x == "" {
      assert x + t == t;
    } else {
      assert (x + t)[0] == x[0] && x[0] in x && (x + t)[1..] == x[1..] + t;
      FieldsAfterSpace(x[1..], t);
    }
  }

  lemma FieldsBeforeSpace(t: string, y: string)
    requires AllSpace(y)
    ensures Fields(t + y) == Fields(t)
  {
    if y == "" {
      assert t + y == t;
    } else {
      assert t + y == t + [y[0]] + y[1..] && y[0] in y;
      FieldsConcat(t, y[0], y[1..]);
      FieldsOfSpace(y[1..]);
    }
  }

  lemma FieldsOfTrimmed(s: string)
    ensures Fields(TrimSpace(s)) == Fields(s)
  {
    hide TrimSpace, Fields, IsSpace, AllSpace;
    var x, y := TrimSplits(s);
    var t := TrimSpace(s);
    assert s == x + (t + y);
    FieldsAfterSpace(x, t + y);
    FieldsBeforeSpace(t, y);
  }

  lemma CleanSpaceless(lower: Lowering, w: string)
    requires IsLowering(lower) && forall c <- w :: !IsSpace(c)
    ensures forall c <- RemoveNul(ToLower(lower, w)) :: !IsSpace(c)
  {
    forall c | c in RemoveNul(ToLower(lower, w)) ensures !IsSpace(c) {
      assert c in ToLower(lower, w);
      var i :| 0 <= i < |w| && ToLower(lower, w)[i] == c;
      assert w[i] in w && c == lower(w[i]);
    }
  }

  lemma CleanOne(lower: Lowering, w: string)
    requires IsLowering(lower) && IsWord(w)
    ensures Fields(RemoveNul(ToLower(lower, w))) == CleanWords(lower, [w])
  {
    var r := RemoveNul(ToLower(lower, w));
    CleanSpaceless(lower, w);
    assert [w][1..] == [];
    if r != "" { FieldsOfWord(r); }
  }

  /** Cleaning a text cleans its words: it makes and unmakes no white space. */
  lemma {:induction false} FieldsOfCleaned(lower: Lowering, s: string)
    requires IsLowering(lower)
    ensures Fields(RemoveNul(ToLower(lower, s))) == CleanWords(lower, Fields(s))
    decreases |s|
  {
    hide IsLowering, IsSpace, RemoveNul, Fields, CleanWords;
    if s == "" {
      CleanNothing(lower);
    } else {
      var n := WordLength(s);
      if n == |s| {
        assert IsWord(s) by { assert forall c <- s :: !IsSpace(c); }
        FieldsOfWord(s);
        CleanOne(lower, s);
      } else {
        var w, c, t := s[..n], s[n], s[n + 1..];
        assert s == w + [c] + t && forall d <- w :: !IsSpace(d);
        FieldsConcat(w, c, t);
        FieldsOfCleaned(lower, t);
        CleanConcat(lower, Fields(w), Fields(t));
        CleanStart(lower, w);
        CleanSplit(lower, w, c, t);
        FieldsConcat(RemoveNul(ToLower(lower, w)), c, RemoveNul(ToLower(lower, t)));
      }
    }
  }

  lemma CleanNothing(lower: Lowering)
    ensures Fields(RemoveNul(ToLower(lower, ""))) == CleanWords(lower, Fields("")) == []
  {
    assert ToLower(lower, "") == "";
  }

  lemma CleanStart(lower: Lowering, w: string)
    requires IsLowering(lower) && forall c <- w :: !IsSpace(c)
    ensures Fields(RemoveNul(ToLower(lower, w))) == CleanWords(lower, Fields(w))
  {
    hide IsLowering;
    if w == "" {
      CleanNothing(lower);
    } else {
      FieldsOfWord(w);
      CleanOne(lower, w);
    }
  }

  lemma CleanSplit(lower: Lowering, w: string, c: char, t: string)
    requires IsLowering(lower) && IsSpace(c)
    ensures RemoveNul(ToLower(lower, w + [c] + t))
            == RemoveNul(ToLower(lower, w)) + [c] + RemoveNul(ToLower(lower, t))
  {
    ToLowerConcat(lower, w + [c], t);
    ToLowerConcat(lower, w, [c]);
    assert ToLower(lower, [c]) == [c] && c != '\0';
    RemoveNulConcat(ToLower(lower, w) + [c], ToLower(lower, t));
    RemoveNulConcat(ToLower(lower, w), [c]);
    assert '\0' !in [c];
  }

  /** A search text is its words, cleaned and joined by single spaces; nothing else of the text
      matters. */
  lemma NormalizeWords(lower: Lowering, s: string)
    requires IsLowering(lower)
    ensures Normalize(lower, s) == JoinWords(CleanWords(lower, Fields(s)))
  {
    hide IsLowering;
    FieldsOfCleaned(lower, TrimSpace(s));
    FieldsOfTrimmed(s);
  }

  lemma {:induction false} CleanFixed(lower: Lowering, ws: seq<string>)
    requires forall w <- ws :: IsWord(w) && '\0' !in w && forall c <- w :: lower(c) == c
    ensures CleanWords(lower, ws) == ws
  {
    if ws != [] {
      var w := ws[0];
      assert w in ws;
      forall i | 0 <= i < |w| ensures ToLower(lower, w)[i] == w[i] {
        assert w[i] in w;
      }
      assert ToLower(lower, w) == w;
      assert forall v <- ws[1..] :: v in ws;
      CleanFixed(lower, ws[1..]);
    }
  }

  /** Lower-case words without NULs, with single spaces between them, are already normal. */
  lemma NormalizeFixed(lower: Lowering, ws: seq<string>)
    requires IsLowering(lower)
    requires forall w <- ws :: IsWord(w) && '\0' !in w && forall c <- w :: lower(c) == c
    ensures Normalize(lower, JoinWords(ws)) == JoinWords(ws)
  {
    NormalizeWords(lower, JoinWords(ws));
    FieldsOfJoin(ws);
    CleanFixed(lower, ws);
  }

  /** Every word of a text is, cleaned, a word of the normal text. */
  lemma NormalizeKeepsWords(lower: Lowering, s: string, w: string)
    requires IsLowering(lower) && w in Fields(s) && RemoveNul(ToLower(lower, w)) != ""
    ensures RemoveNul(ToLower(lower, w)) in Fields(Normalize(lower, s))
  {
    hide RemoveNul, Fields, IsLowering, Normalize;
    NormalizeWords(lower, s);
    CleanedIn(lower, Fields(s), w);
    WordsAreClean(lower, Fields(s));
    FieldsOfJoin(CleanWords(lower, Fields(s)));
  }

  lemma {:induction false} CleanedIn(lower: Lowering, ws: seq<string>, w: string)
    requires w in ws && RemoveNul(ToLower(lower, w)) != ""
    ensures RemoveNul(ToLower(lower, w)) in CleanWords(lower, ws)
  {
    hide RemoveNul;
    if ws[0] != w {
      assert w in ws[1..];
      CleanedIn(lower, ws[1..], w);
    }
  }

  lemma {:induction false} WordsAreClean(lower: Lowering, ws: seq<string>)
    requires IsLowering(lower) && forall w <- ws :: IsWord(w)
    ensures forall w <- CleanWords(lower, ws) :: IsWord(w)
  {
    hide RemoveNul, IsLowering;
    if ws != [] {
      assert ws[0] in ws;
      CleanSpaceless(lower, ws[0]);
      WordsAreClean(lower, ws[1..]);
    }
  }

  /** A stretch of words, joined, is inside the whole joined. */
  lemma JoinedPart(x: seq<string>, ws: seq<string>, y: seq<string>)
    ensures Contains(JoinWords(x + ws + y), JoinWords(ws))
  {
    hide JoinWords;
    JoinConcat(x, ws + y);
    JoinConcat(ws, y);
    assert x + ws + y == x + (ws + y);
    assert JoinWords([]) == "" by { JoinNothing(); }
    var all, part := JoinWords(x + ws + y), JoinWords(ws);
    if ws == [] {
      assert all[0..][..0] == part;
    } else {
      var before := if x == [] then "" else JoinWords(x) + " ";
      var after := if y == [] then "" else " " + JoinWords(y);
      assert ws + y != [];
      assert all == before + part + after;
      assert all[|before|..][..|part|] == part;
    }
  }

  lemma JoinNothing()
    ensures JoinWords([]) == ""
  {
  }

  predicate Distinct(ss: seq<string>) {
    forall i, j :: 0 <= i < j < |ss| ==> ss[i] != ss[j]
  }

  /** The adjacent-rune grams of a value, each once, in order of first use. */
  method BookSearchGrams(lower: Lowering, value: string) returns (grams: seq<string>)
    ensures forall g :: g in grams <==> g in GramsOf(Normalize(lower, value))
    ensures Distinct(grams)
  {
    var runes := Normalize(lower, value);
    grams := [];
    if |runes| < 2 { return; }
    var seen: set<string> := {};
    var i := 0;
    while i < |runes| - 1
      invariant 0 <= i <= |runes| - 1
      invariant seen == set j | 0 <= j < i :: Gram(runes, j)
      invariant forall g :: g in grams <==> g in seen
      invariant Distinct(grams)
    {
      var gram := Gram(runes, i);
      if gram !in seen {
        seen := seen + {gram};
        grams := grams + [gram];
      }
      i := i + 1;
    }
    assert seen == GramsOf(runes);
  }

  lemma TrimOfSpaceless(s: string)
    requires forall c <- s :: !IsSpace(c)
    ensures TrimSpace(s) == s
  {
  }

  /** The trimmed, non-empty values, each once, in order of first appearance. */
  method UniqueNonEmptyStrings(values: seq<string>) returns (result: seq<string>)
    ensures forall s :: s in result <==> s != "" && exists i :: 0 <= i < |values| && TrimSpace(values[i]) == s
    ensures Distinct(result)
  {
    var seen: set<string> := {};
    result := [];
    var n := 0;
    while n < |values|
      invariant 0 <= n <= |values|
      invariant forall s :: s in result <==> s in seen
      invariant forall s :: s in result <==> s != "" && exists i :: 0 <= i < n && TrimSpace(values[i]) == s
      invariant Distinct(result)
    {
      var value := TrimSpace(values[n]);
      if value != "" && value !in seen {
        seen := seen + {value};
        result := result + [value];
      }
      n := n + 1;
    }
  }
}
