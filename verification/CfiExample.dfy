/** One CFI with every construct of the grammar of section 2.2 of EPUB Canonical Fragment Identifiers
    1.1, written out: this is the text that is printed (frontend/public/foliate/epubcfi.js) and that
    parses to these steps. */
module CfiExample {
  import opened Wrappers
  import opened CfiSyntax
  import opened CfiReading
  import opened CfiRoundTrip

  function Package(): Part {
    EmptyPart(Num(6))
  }

  function Chapter(): Part {
    EmptyPart(Num(4)).(id := Some("c(1)"))
  }

  function Letter(): Part {
    EmptyPart(Num(3)).(offset := Some(Num(10)), temporal := Some("2.5"), spatial := Some(["7", "8"]),
                       text := Some(["x,", "y"]), side := Some("a"))
  }

  function Picture(): Part {
    EmptyPart(Num(2)).(id := Some("p"), side := Some("b"))
  }

  lemma Numbers()
    ensures NumberText(2) == "2" && NumberText(3) == "3" && NumberText(4) == "4" && NumberText(6) == "6"
    ensures NumberText(10) == "10"
  {
  }

  lemma Escapes()
    ensures EscapeCfi("c(1)") == "c^(1^)" && EscapeCfi("p") == "p"
    ensures EscapeCfi("x,") == "x^," && EscapeCfi("y") == "y"
  {
    assert "c(1)"[1..] == "(1)" && "(1)"[1..] == "1)" && "1)"[1..] == ")" && ")"[1..] == "" && "p"[1..] == "";
    assert "x,"[1..] == "," && ","[1..] == "" && "y"[1..] == "";
  }

  lemma PrintedSteps()
    ensures PartToString(Package()) == "/6" && PartToString(Chapter()) == "/4[c^(1^)]"
    ensures PartToString(Picture()) == "/2[p;s=b]"
  {
    hide NumberText, EscapeCfi;
    Numbers();
    Escapes();
  }

  lemma PrintedLists()
    ensures Joined(["7", "8"], ":") == "7:8" && Joined(EscapedAll(["x,", "y"]), ",") == "x^,,y"
  {
    hide EscapeCfi;
    Escapes();
    assert ["7", "8"][1..] == ["8"] && ["x,", "y"][1..] == ["y"] && ["y"][1..] == [] && ["x^,", "y"][1..] == ["y"];
    assert EscapedAll(["y"]) == ["y"];
    assert EscapedAll(["x,", "y"]) == ["x^,", "y"];
  }

  lemma PrintedLetter()
    ensures PartToString(Letter()) == "/3" + ":10" + "~2.5" + "@7:8" + "[x^,,y;s=a]"
  {
    hide NumberText, EscapeCfi, Joined, EscapedAll;
    Numbers();
    PrintedLists();
    var p := Letter();
    assert OffsetString(p) == ":10";
    assert TemporalString(p) == "~2.5" by { assert "2.5"[0] in "2.5"; }
    assert SpatialString(p) == "@7:8";
    assert TextString(p) == "[x^,,y;s=a]";
    assert IdString(p) == "" && NumberString(p.index) == "3";
  }

  lemma PathOfOne(p: Part)
    ensures PathToString([p]) == PartToString(p)
  {
    hide PartToString;
    assert [p][1..] == [];
    assert PathToString([]) == "";
  }

  lemma PathOfTwo(p: Part, q: Part)
    ensures PathToString([p, q]) == PartToString(p) + PartToString(q)
  {
    hide PartToString;
    assert [p, q][1..] == [q];
    PathOfOne(q);
  }

  function Place(): Cfi {
    Point([[Package(), Chapter()], [Letter()]])
  }

  function Span(): Cfi {
    Range([[Package(), Chapter()]], [[Picture()]], [[Letter()]])
  }

  lemma PlaceText()
    ensures ToInnerString(Place()) == "/6" + "/4[c^(1^)]" + "!" + ("/3" + ":10" + "~2.5" + "@7:8" + "[x^,,y;s=a]")
  {
    hide PartToString, PathToString, Package, Chapter, Letter;
    PrintedSteps();
    PrintedLetter();
    PathOfTwo(Package(), Chapter());
    PathOfOne(Letter());
    PathsOfTwo([Package(), Chapter()], [Letter()]);
  }

  lemma PathsOfTwo(p: Path, q: Path)
    ensures PathsToString([p, q]) == PathToString(p) + "!" + PathToString(q)
  {
    hide PathToString;
    assert [p, q][1..] == [q];
  }

  lemma SpanText()
    ensures ToInnerString(Span()) ==
            "/6" + "/4[c^(1^)]" + "," + "/2[p;s=b]" + "," + ("/3" + ":10" + "~2.5" + "@7:8" + "[x^,,y;s=a]")
  {
    hide PartToString, PathToString, Package, Chapter, Letter, Picture;
    PrintedSteps();
    PrintedLetter();
    PathOfTwo(Package(), Chapter());
    PathOfOne(Letter());
    PathOfOne(Picture());
    RangeText([Package(), Chapter()], [Picture()], [Letter()]);
  }

  lemma RangeText(p: Path, q: Path, r: Path)
    ensures ToInnerString(Range([p], [q], [r])) ==
            PathToString(p) + "," + PathToString(q) + "," + PathToString(r)
  {
    hide PathToString;
  }

  lemma AreWellFormed()
    ensures WellFormed(Place()) && PrintableCfi(Place()) && WellFormed(Span()) && PrintableCfi(Span())
  {
    var letter := Letter();
    assert "2.5"[0] == '2' && "2.5"[0] in "2.5";
    assert WellFormedPart(letter) && WellFormedPart(Chapter());
    assert WellFormedPart(Package()) && WellFormedPart(Picture());
    assert Printable(letter) && Printable(Chapter()) && Printable(Package()) && Printable(Picture());
  }

  /** An offset is written only at an odd index, and a temporal offset only when it is not zero. */
  lemma NotWritten()
    ensures PartToString(EmptyPart(Num(4)).(offset := Some(Num(3)))) == "/4"
    ensures PartToString(EmptyPart(Num(3)).(temporal := Some("0.0"))) == "/3"
    ensures PartToString(EmptyPart(Num(3)).(temporal := Some("0.2"))) == "/3" + "~0.2"
    ensures PartToString(EmptyPart(Num(3)).(offset := Some(Num(0)))) == "/3" + ":0"
  {
    hide NumberText;
    Numbers();
    assert NumberText(0) == "0" by { Zero(); }
    assert "0.2"[2] == '2' && "0.2"[2] in "0.2";
    assert forall c <- "0.0" :: c == '0' || c == '.';
  }

  lemma Zero()
    ensures NumberText(0) == "0"
  {
  }

  lemma Wrapped(s: string)
    requires s != "" && s[0] != 'e'
    ensures Wrap(s) == "epubcfi(" + s + ")"
  {
  }

  /** A point with an indirection, an escaped id, a character, temporal and spatial offset, text
      assertions and a side bias, and a range: their texts, and what these parse to. */
  lemma Written()
    ensures var text :=
              "epubcfi(" + ("/6" + "/4[c^(1^)]" + "!" + ("/3" + ":10" + "~2.5" + "@7:8" + "[x^,,y;s=a]")) + ")";
            ToString(Place()) == text && ParseCfi(text) == Whole(Place())
    ensures var text :=
              "epubcfi("
              + ("/6" + "/4[c^(1^)]" + "," + "/2[p;s=b]" + "," + ("/3" + ":10" + "~2.5" + "@7:8" + "[x^,,y;s=a]"))
              + ")";
            ToString(Span()) == text && ParseCfi(text) == Whole(Span())
  {
    hide ToInnerString, WellFormed, PrintableCfi, ParseCfi, Place, Span, Wrap;
    PlaceText();
    SpanText();
    AreWellFormed();
    Wrapped(ToInnerString(Place()));
    Wrapped(ToInnerString(Span()));
    RoundTrip(Place());
    RoundTrip(Span());
  }
}
