/** The list format of the entity store: the printer of ClusterEntityWriter::ListValue and
    the parser of ClusterEntityReader::ListValue. */
module ListCodec {
  import opened Text

  // ---- Util::SplitEscaped ---------------------------------------------------------------

  /** Pieces of `s` between unescaped delimiters; `cur` is the piece read so far. */
  function EscapedPieces(s: string, delim: char, escaped: bool, cur: string): (r: seq<string>)
    ensures |r| > 0
  {
    if |s| == 0 then [cur]
    else if s[0] == '\\' && !escaped then EscapedPieces(s[1..], delim, true, cur + [s[0]])
    else if s[0] == delim && !escaped then [cur] + EscapedPieces(s[1..], delim, false, "")
    else EscapedPieces(s[1..], delim, false, cur + [s[0]])
  }

  /** `source.at(0)` throws on the empty string, which the only caller screens out. */
  method SplitEscaped(source: string, delim: char) returns (dest: seq<string>)
    requires |source| > 0
    ensures dest == EscapedPieces(source, delim, false, "")
  {
    dest := [];
    var pos, fpos, escaped := 0, 0, false;
    var first := true;
    while first || fpos < |source|
      invariant 0 <= pos <= fpos <= |source| && (first ==> fpos == 0)
      invariant EscapedPieces(source, delim, false, "") ==
                dest + EscapedPieces(source[fpos..], delim, escaped, source[pos..fpos])
      decreases |source| - fpos
    {
      ghost var rest := source[fpos..];
      assert rest[0] == source[fpos] && rest[1..] == source[fpos + 1..];
      assert source[pos..fpos] + [source[fpos]] == source[pos..fpos + 1];
      assert source[fpos + 1..fpos + 1] == "";
      if source[fpos] == '\\' && !escaped {
        escaped := true;
      } else if !escaped && source[fpos] == delim {
        dest := dest + [source[pos..fpos]];
        pos := fpos + 1;
      } else {
        escaped := false;
      }
      fpos := fpos + 1;
      first := false;
    }
    assert source[pos..fpos] == source[pos..];
    dest := dest + [source[pos..]];
  }

  // ---- printing and parsing -------------------------------------------------------------

  function Escape(e: string): string {
    Replaced(Replaced(e, "\\", "\\\\"), ",", "\\,")
  }

  function Unescape(p: string, sep: string): string {
    Replaced(Replaced(p, "\\" + sep, sep), "\\\\", "\\")
  }

  /** The printer's accumulator: a comma is written only once something has been. */
  function Printed(v: string, l: seq<string>): string
    decreases |l|
  {
    if |l| == 0 then v
    else Printed(v + (if |v| > 0 then "," else "") + Escape(l[0]), l[1..])
  }

  function Each(l: seq<string>, f: string -> string): (r: seq<string>)
    ensures |r| == |l| && forall i :: 0 <= i < |l| ==> r[i] == f(l[i])
  {
    seq(|l|, i requires 0 <= i < |l| => f(l[i]))
  }

  function Separator(separator: string): string {
    if |separator| == 0 then "," else separator
  }

  function Parsed(v: string, separator: string): seq<string> {
    if |v| == 0 then []
    else Each(EscapedPieces(v, ',', false, ""), p => Unescape(p, Separator(separator)))
  }

  method Print(value: seq<string>) returns (v: string)
    ensures v == Printed("", value)
  {
    v := "";
    for i := 0 to |value|
      invariant Printed("", value) == Printed(v, value[i..])
    {
      if |v| > 0 {
        v := v + ",";
      }
      var e := ReplaceAllTo(value[i], "\\", "\\\\");
      e := ReplaceAllTo(e, ",", "\\,");
      v := v + e;
      assert value[i..][1..] == value[i + 1..];
    }
  }

  method Parse(v: string, separator: string) returns (o: seq<string>)
    ensures o == Parsed(v, separator)
  {
    if |v| == 0 {
      return [];
    }
    o := [];
    var sep := Separator(separator);
    var l := SplitEscaped(v, ',');
    for i := 0 to |l|
      invariant |o| == i && forall j :: 0 <= j < i ==> o[j] == Unescape(l[j], sep)
    {
      var e := ReplaceAllTo(l[i], "\\" + sep, sep);
      e := ReplaceAllTo(e, "\\\\", "\\");
      o := o + [e];
    }
  }

  // ---- one element ----------------------------------------------------------------------

  /** `Escape` and its first half, character by character. */
  function Esc(s: string): string {
    if |s| == 0 then ""
    else (if s[0] == '\\' then "\\\\" else if s[0] == ',' then "\\," else [s[0]]) + Esc(s[1..])
  }

  function Doubled(s: string): string {
    if |s| == 0 then ""
    else (if s[0] == '\\' then "\\\\" else [s[0]]) + Doubled(s[1..])
  }

  lemma {:induction false} EscapeIsEsc(s: string)
    ensures Escape(s) == Esc(s)
  {
    SlashesDoubled(s);
    CommasEscaped(s);
  }

  lemma {:induction false} SlashesDoubled(s: string)
    ensures Replaced(s, "\\", "\\\\") == Doubled(s)
  {
    if |s| > 0 {
      SlashesDoubled(s[1..]);
      assert s == [s[0]] + s[1..];
      if s[0] == '\\' {
        ReplacedMatch("\\", s[1..], "\\\\");
      } else {
        assert s[0 + 0] != "\\"[0];
        ReplacedCopy(s[0], s[1..], "\\", "\\\\");
      }
    }
  }

  lemma {:induction false} CommasEscaped(s: string)
    ensures Replaced(Doubled(s), ",", "\\,") == Esc(s)
  {
    if |s| > 0 {
      CommasEscaped(s[1..]);
      var rest := Doubled(s[1..]);
      if s[0] == '\\' {
        CopyOther('\\', rest, ",", "\\,");
        CopyOther('\\', "\\" + rest, ",", "\\,");
        SlashPair(rest);
        SlashPair(Esc(s[1..]));
      } else if s[0] == ',' {
        ReplacedMatch(",", rest, "\\,");
      } else {
        CopyOther(s[0], rest, ",", "\\,");
      }
    }
  }

  lemma SlashPair(rest: string)
    ensures "\\\\" + rest == "\\" + ("\\" + rest)
  {
  }

  lemma CopyOther(c: char, rest: string, from: string, to: string)
    requires |from| > 0 && from[0] != c
    ensures Replaced([c] + rest, from, to) == [c] + Replaced(rest, from, to)
  {
    assert ([c] + rest)[0 + 0] != from[0];
    ReplacedCopy(c, rest, from, to);
  }

  /** The two sequential replacements undo the escaping of any element. */
  lemma {:induction false} UnescapeEscape(s: string)
    ensures Unescape(Escape(s), ",") == s
  {
    EscapeIsEsc(s);
    CommasUnescaped(s);
    SlashesUnescaped(s);
    assert "\\" + "," == "\\,";
  }

  lemma {:induction false} CommasUnescaped(s: string)
    ensures Replaced(Esc(s), "\\,", ",") == Doubled(s)
  {
    if |s| > 0 {
      CommasUnescaped(s[1..]);
      var rest := Esc(s[1..]);
      if s[0] == '\\' {
        // The second backslash cannot pair with a comma: no escaped text starts with one.
        assert |rest| > 0 ==> rest[0] != ',';
        assert ("\\" + rest)[0 + 1..] == rest;
        assert |rest| > 0 ==> ("\\" + rest)[0 + 1] != "\\,"[1];
        ReplacedCopy('\\', rest, "\\,", ",");
        assert ("\\" + ("\\" + rest))[0 + 1] != "\\,"[1];
        ReplacedCopy('\\', "\\" + rest, "\\,", ",");
        SlashPair(rest);
        SlashPair(Doubled(s[1..]));
      } else if s[0] == ',' {
        ReplacedMatch("\\,", rest, ",");
      } else {
        CopyOther(s[0], rest, "\\,", ",");
      }
    }
  }

  lemma {:induction false} SlashesUnescaped(s: string)
    ensures Replaced(Doubled(s), "\\\\", "\\") == s
  {
    if |s| > 0 {
      SlashesUnescaped(s[1..]);
      assert s == [s[0]] + s[1..];
      if s[0] == '\\' {
        ReplacedMatch("\\\\", Doubled(s[1..]), "\\");
      } else {
        CopyOther(s[0], Doubled(s[1..]), "\\\\", "\\");
      }
    }
  }

  // ---- whole lists ----------------------------------------------------------------------

  lemma ReadUnit(c: char, rest: string, cur: string)
    ensures c != '\\' && c != ',' ==>
              EscapedPieces([c] + rest, ',', false, cur) == EscapedPieces(rest, ',', false, cur + [c])
    ensures EscapedPieces("\\" + ([c] + rest), ',', false, cur) ==
            EscapedPieces(rest, ',', false, cur + "\\" + [c])
  {
    var tail := [c] + rest;
    assert ("\\" + tail)[1..] == tail && tail[1..] == rest;
  }

  /** Escaped text is read into the current piece without a cut. */
  lemma {:induction false} EscRead(s: string, t: string, cur: string)
    ensures EscapedPieces(Esc(s) + t, ',', false, cur) == EscapedPieces(t, ',', false, cur + Esc(s))
  {
    if |s| == 0 {
      assert Esc(s) + t == t && cur + Esc(s) == cur;
    } else {
      var c, rest := s[0], Esc(s[1..]);
      ReadUnit(c, rest + t, cur);
      if c == '\\' || c == ',' {
        Regroup("\\", [c], rest, t, cur);
        assert "\\" + [c] == if c == '\\' then "\\\\" else "\\,";
        EscRead(s[1..], t, cur + "\\" + [c]);
      } else {
        Regroup("", [c], rest, t, cur);
        EscRead(s[1..], t, cur + [c]);
      }
    }
  }

  lemma Regroup(a: string, b: string, rest: string, t: string, cur: string)
    ensures a + b + rest + t == a + (b + (rest + t))
    ensures cur + a + b + rest == cur + (a + b + rest)
    ensures "" + b == b && "" + (b + (rest + t)) == b + (rest + t) && cur + "" == cur
  {
  }

  lemma {:induction false} PiecesOfEscaped(l: seq<string>)
    requires |l| > 0
    ensures EscapedPieces(Join(Each(l, Esc), ","), ',', false, "") == Each(l, Esc)
  {
    if |l| == 1 {
      EscRead(l[0], "", "");
      Units(Esc(l[0]));
    } else {
      var rest := Join(Each(l[1..], Esc), ",");
      PiecesOfEscaped(l[1..]);
      JoinedCons(l);
      EscRead(l[0], "," + rest, "");
      Units(Esc(l[0]));
      ReadCut(rest, Esc(l[0]));
    }
  }

  lemma JoinedCons(l: seq<string>)
    requires |l| > 1
    ensures Each(l, Esc) == [Esc(l[0])] + Each(l[1..], Esc)
    ensures Join(Each(l, Esc), ",") == Esc(l[0]) + ("," + Join(Each(l[1..], Esc), ","))
  {
    EachCons(l, Esc);
    JoinHead(Esc(l[0]), Each(l[1..], Esc));
  }

  lemma EachCons(l: seq<string>, f: string -> string)
    requires |l| > 0
    ensures Each(l, f) == [f(l[0])] + Each(l[1..], f)
  {
  }

  lemma JoinHead(head: string, tail: seq<string>)
    requires |tail| > 0
    ensures Join([head] + tail, ",") == head + ("," + Join(tail, ","))
  {
    JoinCons(head, tail, ",");
    Regroup("", head, ",", Join(tail, ","), "");
  }

  lemma Units(s: string)
    ensures s + "" == s && "" + s == s
  {
  }

  lemma ReadCut(rest: string, cur: string)
    ensures EscapedPieces("," + rest, ',', false, cur) == [cur] + EscapedPieces(rest, ',', false, "")
  {
    assert ("," + rest)[1..] == rest;
  }

  /** Once something is written, the printer joins with commas. */
  lemma {:induction false} PrintedAfter(v: string, l: seq<string>)
    requires |v| > 0
    ensures Printed(v, l) == if |l| == 0 then v else v + "," + Join(Each(l, Esc), ",")
    decreases |l|
  {
    if |l| > 0 {
      EscapeIsEsc(l[0]);
      var next := v + "," + Esc(l[0]);
      PrintedAfter(next, l[1..]);
      var es := Each(l, Esc);
      assert es[1..] == Each(l[1..], Esc);
      if |l| > 1 {
        Assoc(v + ",", Esc(l[0]), ",", Join(es[1..], ","));
      }
    }
  }

  /** What survives of a list: leading empty elements are not written. */
  function WithoutEmptyHead(l: seq<string>): seq<string> {
    if |l| > 0 && l[0] == "" then WithoutEmptyHead(l[1..]) else l
  }

  lemma {:induction false} PrintedIsJoin(l: seq<string>)
    ensures Printed("", l) == Join(Each(WithoutEmptyHead(l), Esc), ",")
    ensures |Printed("", l)| == 0 <==> |WithoutEmptyHead(l)| == 0
  {
    if |l| > 0 {
      EscapeIsEsc(l[0]);
      assert "" + "" + Esc(l[0]) == Esc(l[0]);
      if l[0] == "" {
        PrintedIsJoin(l[1..]);
      } else {
        PrintedAfter(Esc(l[0]), l[1..]);
        assert Each(l, Esc)[1..] == Each(l[1..], Esc);
      }
    }
  }

  // ---- other separators -----------------------------------------------------------------

  // The reader splits at commas whatever separator it is given; the separator only says which
  // escape is undone. A separator free of commas and backslashes leaves every comma escaped.

  predicate Plain(s: string) {
    |s| > 0 && ',' !in s && '\\' !in s
  }

  function Marked(s: string): string {
    if |s| == 0 then "" else (if s[0] == ',' then "\\," else [s[0]]) + Marked(s[1..])
  }

  /** Escaped text after the first of the two replacements: a backslash in front of the
      separator has lost its escape, every other one keeps it. */
  function HalfRead(s: string, sep: string): string
    requires Plain(sep)
    decreases |s|
  {
    if |s| == 0 then ""
    else if s[0] == ',' then "\\," + HalfRead(s[1..], sep)
    else if s[0] != '\\' then [s[0]] + HalfRead(s[1..], sep)
    else if sep <= s[1..] then "\\" + (sep + HalfRead(s[1 + |sep|..], sep))
    else "\\\\" + HalfRead(s[1..], sep)
  }

  lemma {:induction false} EscPlain(p: string, rest: string)
    requires ',' !in p && '\\' !in p
    ensures Esc(p + rest) == p + Esc(rest)
    ensures Marked(p + rest) == p + Marked(rest)
  {
    if |p| == 0 {
      assert p + rest == rest;
    } else {
      assert p[0] in p;
      EscPlain(p[1..], rest);
      PlainCons(p[0], p[1..] + rest);
      Regain(p, rest);
      Regain(p, Esc(rest));
      Regain(p, Marked(rest));
    }
  }

  lemma Regain(p: string, rest: string)
    requires |p| > 0
    ensures p + rest == [p[0]] + (p[1..] + rest)
  {
  }

  lemma PlainCons(c: char, rest: string)
    requires c != ',' && c != '\\'
    ensures Esc([c] + rest) == [c] + Esc(rest)
    ensures Marked([c] + rest) == [c] + Marked(rest)
  {
    assert ([c] + rest)[1..] == rest;
  }

  /** Escaped text starts with plain text exactly when the text itself does. */
  lemma {:induction false} EscStarts(p: string, s: string)
    requires ',' !in p && '\\' !in p
    ensures p <= Esc(s) <==> p <= s
  {
    if |p| > 0 && |s| > 0 {
      assert p[0] in p;
      if s[0] == p[0] {
        EscStarts(p[1..], s[1..]);
        assert s == [s[0]] + s[1..] && p == [p[0]] + p[1..];
        assert Esc(s) == [s[0]] + Esc(s[1..]) && Esc(s)[1..] == Esc(s[1..]);
        assert p <= s <==> p[1..] <= s[1..];
        assert p <= Esc(s) <==> p[1..] <= Esc(s)[1..];
      }
    }
  }

  lemma {:induction false} FirstHalf(s: string, sep: string)
    requires Plain(sep)
    ensures Replaced(Esc(s), "\\" + sep, sep) == HalfRead(s, sep)
    decreases |s|
  {
    if |s| > 0 {
      var rest := Esc(s[1..]);
      if s[0] == ',' {
        FirstHalf(s[1..], sep);
        HalfEscaped(',', rest, sep);
      } else if s[0] != '\\' {
        FirstHalf(s[1..], sep);
        CopyOther(s[0], rest, "\\" + sep, sep);
      } else {
        EscStarts(sep, s[1..]);
        if sep <= s[1..] {
          var t := s[1 + |sep|..];
          FirstHalf(t, sep);
          assert s[1..] == sep + t;
          EscPlain(sep, t);
          HalfBefore(Esc(t), sep);
        } else {
          FirstHalf(s[1..], sep);
          HalfEscaped('\\', rest, sep);
        }
      }
    }
  }

  /** An escaped character, not a backslash in front of the separator, is copied. */
  lemma HalfEscaped(c: char, rest: string, sep: string)
    requires Plain(sep) && (c == ',' || (c == '\\' && !(sep <= rest)))
    ensures Replaced(['\\', c] + rest, "\\" + sep, sep) == ['\\', c] + Replaced(rest, "\\" + sep, sep)
  {
    assert sep[0] in sep;
    NotPrefix(sep, c, rest);
    Pair('\\', c, rest);
    CopyBackslash([c] + rest, sep, sep);
    if c == ',' {
      CopyOther(',', rest, "\\" + sep, sep);
    } else {
      CopyBackslash(rest, sep, sep);
    }
    Pair('\\', c, Replaced(rest, "\\" + sep, sep));
  }

  /** A backslash in front of the separator loses its escape. */
  lemma HalfBefore(t: string, sep: string)
    requires Plain(sep)
    ensures Replaced("\\\\" + (sep + t), "\\" + sep, sep) == "\\" + (sep + Replaced(t, "\\" + sep, sep))
  {
    assert sep[0] in sep;
    var u := "\\" + (sep + t);
    NotPrefix(sep, '\\', sep + t);
    Pair('\\', '\\', sep + t);
    CopyBackslash(u, sep, sep);
    assert u == "\\" + sep + t;
    ReplacedMatch("\\" + sep, t, sep);
  }

  lemma NotPrefix(sep: string, c: char, rest: string)
    requires |sep| > 0 && sep[0] != c
    ensures !(sep <= [c] + rest)
  {
    assert ([c] + rest)[0] == c;
  }

  lemma Pair(a: char, b: char, rest: string)
    ensures [a, b] + rest == [a] + ([b] + rest)
  {
  }

  /** A backslash that is not followed by the separator is copied. */
  lemma CopyBackslash(rest: string, sep: string, to: string)
    requires |sep| > 0 && !(sep <= rest)
    ensures Replaced("\\" + rest, "\\" + sep, to) == "\\" + Replaced(rest, "\\" + sep, to)
  {
    var s, p := "\\" + rest, "\\" + sep;
    OccursBehind(rest, sep);
    ReplacedCopy('\\', rest, p, to);
  }

  lemma OccursBehind(rest: string, sep: string)
    ensures OccursAt("\\" + rest, "\\" + sep, 0) ==> sep <= rest
  {
    var s, p := "\\" + rest, "\\" + sep;
    if OccursAt(s, p, 0) {
      assert s[0..|p|] == p;
      assert rest[..|sep|] == s[0..|p|][1..];
      assert p[1..] == sep;
    }
  }

  lemma {:induction false} SecondHalf(s: string, sep: string)
    requires Plain(sep)
    ensures Replaced(HalfRead(s, sep), "\\\\", "\\") == Marked(s)
    decreases |s|
  {
    if |s| > 0 {
      if s[0] == ',' {
        var rest := HalfRead(s[1..], sep);
        SecondHalf(s[1..], sep);
        CopyLone("," + rest);
        CopyOther(',', rest, "\\\\", "\\");
        Pair('\\', ',', rest);
        Pair('\\', ',', Marked(s[1..]));
      } else if s[0] != '\\' {
        SecondHalf(s[1..], sep);
        CopyOther(s[0], HalfRead(s[1..], sep), "\\\\", "\\");
      } else if sep <= s[1..] {
        var t := s[1 + |sep|..];
        var rest := HalfRead(t, sep);
        SecondHalf(t, sep);
        assert sep[0] in sep;
        CopyLone(sep + rest);
        CopyPlain(sep, rest);
        assert s[1..] == sep + t;
        EscPlain(sep, t);
      } else {
        SecondHalf(s[1..], sep);
        ReplacedMatch("\\\\", HalfRead(s[1..], sep), "\\");
      }
    }
  }

  lemma CopyLone(rest: string)
    requires |rest| > 0 && rest[0] != '\\'
    ensures Replaced("\\" + rest, "\\\\", "\\") == "\\" + Replaced(rest, "\\\\", "\\")
  {
    assert ("\\" + rest)[1] != "\\\\"[1];
    ReplacedCopy('\\', rest, "\\\\", "\\");
  }

  lemma {:induction false} CopyPlain(p: string, rest: string)
    requires '\\' !in p
    ensures Replaced(p + rest, "\\\\", "\\") == p + Replaced(rest, "\\\\", "\\")
  {
    if |p| == 0 {
      assert p + rest == rest;
    } else {
      assert p + rest == [p[0]] + (p[1..] + rest) && p[0] in p;
      CopyPlain(p[1..], rest);
      CopyOther(p[0], p[1..] + rest, "\\\\", "\\");
      assert [p[0]] + (p[1..] + Replaced(rest, "\\\\", "\\")) == p + Replaced(rest, "\\\\", "\\");
    }
  }

  /** With such a separator an element comes back with its commas still escaped. */
  lemma UnescapeOther(s: string, sep: string)
    requires Plain(sep)
    ensures Unescape(Escape(s), sep) == Marked(s)
  {
    EscapeIsEsc(s);
    FirstHalf(s, sep);
    SecondHalf(s, sep);
  }

  lemma {:induction false} MarkedIff(s: string)
    ensures Marked(s) == s <==> ',' !in s
    ensures |Marked(s)| >= |s|
  {
    if |s| > 0 {
      MarkedIff(s[1..]);
      assert s == [s[0]] + s[1..];
      if s[0] != ',' {
        assert Marked(s)[1..] == Marked(s[1..]);
      }
    }
  }

  lemma ParsePrintComma(l: seq<string>, separator: string)
    requires separator == "" || separator == ","
    ensures Parsed(Printed("", l), separator) == WithoutEmptyHead(l)
  {
    var w := WithoutEmptyHead(l);
    PrintedIsJoin(l);
    if |w| > 0 {
      PiecesOfEscaped(w);
      forall i | 0 <= i < |w| ensures Unescape(Esc(w[i]), ",") == w[i] {
        EscapeIsEsc(w[i]);
        UnescapeEscape(w[i]);
      }
    }
  }

  lemma ParsePrintPlain(l: seq<string>, separator: string)
    requires Plain(separator)
    ensures Parsed(Printed("", l), separator) == Each(WithoutEmptyHead(l), Marked)
  {
    var w := WithoutEmptyHead(l);
    PrintedIsJoin(l);
    if |w| > 0 {
      PiecesOfEscaped(w);
      forall i | 0 <= i < |w| ensures Unescape(Esc(w[i]), separator) == Marked(w[i]) {
        EscapeIsEsc(w[i]);
        UnescapeOther(w[i], separator);
      }
    }
  }

  /** `r` is `w`, each element escaped by the writer and unescaped by the reader. */
  ghost predicate ReadEach(r: seq<string>, w: seq<string>, separator: string) {
    |r| == |w| && forall i :: 0 <= i < |w| ==> r[i] == Unescape(Escape(w[i]), Separator(separator))
  }

  lemma ParsePrintEach(l: seq<string>, separator: string)
    ensures ReadEach(Parsed(Printed("", l), separator), WithoutEmptyHead(l), separator)
  {
    var w := WithoutEmptyHead(l);
    PrintedIsJoin(l);
    if |w| > 0 {
      PiecesOfEscaped(w);
      forall i | 0 <= i < |w| ensures Esc(w[i]) == Escape(w[i]) {
        EscapeIsEsc(w[i]);
      }
    }
  }

  /** Whatever the separator, a written list is read element by element, without its leading
      empty ones. Reading a written list with the separators the callers pass ("" and ",") gives back
      exactly its elements, minus leading empty ones. With a plain separator of its own the
      commas of the elements come back escaped. */
  lemma ParsePrint(l: seq<string>, separator: string)
    ensures ReadEach(Parsed(Printed("", l), separator), WithoutEmptyHead(l), separator)
    ensures separator == "" || separator == "," ==> Parsed(Printed("", l), separator) == WithoutEmptyHead(l)
    ensures Plain(separator) ==> Parsed(Printed("", l), separator) == Each(WithoutEmptyHead(l), Marked)
  {
    ParsePrintEach(l, separator);
    if separator == "" || separator == "," {
      ParsePrintComma(l, separator);
    } else if Plain(separator) {
      ParsePrintPlain(l, separator);
    }
  }

  /** The round trip holds for exactly the lists that do not start with an empty element, if the
      reader recovers each of their elements: always with the usual separators, and with a
      plain separator of its own exactly for those without a comma. */
  lemma RoundTripIff(l: seq<string>, separator: string)
    ensures Parsed(Printed("", l), separator) == l <==> (|l| == 0 || l[0] != "") && ReadEach(l, l, separator)
    ensures separator == "" || separator == "," ==>
              (Parsed(Printed("", l), separator) == l <==> (|l| == 0 || l[0] != ""))
    ensures Plain(separator) ==>
              (Parsed(Printed("", l), separator) == l <==>
                 (|l| == 0 || l[0] != "") && forall i :: 0 <= i < |l| ==> ',' !in l[i])
  {
    ParsePrint(l, separator);
    if |l| > 0 && l[0] == "" {
      HeadShrinks(l[1..]);
    } else {
      var r := Each(l, Marked);
      forall i | 0 <= i < |l| ensures r[i] == l[i] <==> ',' !in l[i] {
        MarkedIff(l[i]);
      }
    }
  }

  lemma {:induction false} HeadShrinks(l: seq<string>)
    ensures |WithoutEmptyHead(l)| <= |l|
  {
    if |l| > 0 && l[0] == "" {
      HeadShrinks(l[1..]);
    }
  }

  // ---- the written form -----------------------------------------------------------------

  /** Backslashes are doubled and commas get a backslash, one character at a time. */
  lemma EscapedCharacter(c: char, rest: string)
    ensures Escape([c] + rest) == (if c == '\\' then "\\\\" else if c == ',' then "\\," else [c]) + Escape(rest)
    ensures Escape("") == ""
  {
    EscapeIsEsc([c] + rest);
    EscapeIsEsc(rest);
    EscapeIsEsc("");
    assert ([c] + rest)[1..] == rest;
  }
}
