/** SplitFunctionList: the ability loader's splitter of call lists such as `a(1,2),b({3,4})`. */
module FunctionList {
  import opened Text

  function Step(c: char): int {
    if c == '(' || c == '{' then 1 else if c == ')' || c == '}' then -1 else 0
  }

  /** The nesting level after `s`. */
  function Level(s: string): int {
    if |s| == 0 then 0 else Level(s[..|s| - 1]) + Step(s[|s| - 1])
  }

  predicate TopCommaAt(s: string, i: nat) {
    i < |s| && s[i] == ',' && Level(s[..i]) == 0
  }

  ghost predicate NoTopComma(s: string) {
    forall i: nat :: !TopCommaAt(s, i)
  }

  predicate EndsWithTopComma(s: string) {
    |s| > 0 && TopCommaAt(s, |s| - 1)
  }

  /** The pieces of `cur + s`, where `cur` has been read and contains no cut. */
  function Cut(cur: string, s: string): seq<string>
    decreases |s|
  {
    if |s| == 0 then (if |cur| > 0 then [cur] else [])
    else if s[0] == ',' && Level(cur) == 0 then [cur] + Cut("", s[1..])
    else Cut(cur + [s[0]], s[1..])
  }

  method SplitFunctionList(input: string) returns (output: seq<string>)
    ensures output == Cut("", input)
  {
    output := [];
    var nestLevel, first := 0, 0;
    ghost var cur, rest := "", input;
    for i := 0 to |input|
      invariant 0 <= first <= i && cur == input[first..i] && rest == input[i..] && nestLevel == Level(cur)
      invariant Cut("", input) == output + Cut(cur, rest)
    {
      LevelSnoc(cur, input[i]);
      CutStep(output, cur, rest);
      assert rest[0] == input[i] && rest[1..] == input[i + 1..] && input[first..i + 1] == cur + [input[i]];
      cur, rest := cur + [input[i]], input[i + 1..];
      match input[i] {
        case '(' => nestLevel := nestLevel + 1;
        case ')' => nestLevel := nestLevel - 1;
        case '{' => nestLevel := nestLevel + 1;
        case '}' => nestLevel := nestLevel - 1;
        case ',' =>
          if nestLevel == 0 {
            output := output + [input[first..i]];
            first := i + 1;
            cur := "";
          }
        case _ =>
      }
    }
    if first < |input| {
      output := output + [input[first..]];
    }
    assert input[first..|input|] == input[first..] && input[|input|..] == "";
  }

  lemma CutStep(output: seq<string>, cur: string, rest: string)
    requires |rest| > 0
    ensures output + Cut(cur, rest) ==
            if rest[0] == ',' && Level(cur) == 0 then output + [cur] + Cut("", rest[1..])
            else output + Cut(cur + [rest[0]], rest[1..])
  {
  }

  lemma LevelSnoc(s: string, c: char)
    ensures Level(s + [c]) == Level(s) + Step(c)
  {
    assert (s + [c])[..|s|] == s;
  }

  lemma {:induction false} LevelAppend(s: string, t: string)
    ensures Level(s + t) == Level(s) + Level(t)
  {
    if |t| == 0 {
      assert s + t == s;
    } else {
      LevelAppend(s, t[..|t| - 1]);
      assert (s + t)[..|s + t| - 1] == s + t[..|t| - 1];
    }
  }

  lemma {:induction false} CutEmptyIff(cur: string, s: string)
    ensures Cut(cur, s) == [] <==> cur == "" && s == ""
    decreases |s|
  {
    if |s| > 0 && !(s[0] == ',' && Level(cur) == 0) {
      CutEmptyIff(cur + [s[0]], s[1..]);
    }
  }

  /** A text without its trailing top-level comma, if it has one. */
  function Kept(s: string): string {
    if EndsWithTopComma(s) then s[..|s| - 1] else s
  }

  lemma KeptSnoc(s: string, c: char)
    ensures Kept(s + [c]) == if c == ',' && Level(s) == 0 then s else s + [c]
  {
    assert (s + [c])[..|s|] == s;
  }

  lemma KeptAfterCut(cur: string, rest: string)
    requires Level(cur) == 0 && rest != ""
    ensures Kept(cur + "," + rest) == cur + "," + Kept(rest)
  {
    var front, last := rest[..|rest| - 1], rest[|rest| - 1];
    KeptAfterCutSnoc(cur, front, last);
    assert rest == front + [last];
  }

  lemma KeptAfterCutSnoc(cur: string, front: string, last: char)
    requires Level(cur) == 0
    ensures Kept(cur + "," + (front + [last])) == cur + "," + Kept(front + [last])
  {
    KeptSnoc(front, last);
    KeptSnoc(cur + "," + front, last);
    AssocSnoc(cur + ",", front, last);
    LevelAppend(cur + ",", front);
    LevelSnoc(cur, ',');
  }

  lemma AssocSnoc(a: string, b: string, c: char)
    ensures a + b + [c] == a + (b + [c])
  {
  }

  /** Joining the pieces rebuilds the input up to a trailing top-level comma. */
  lemma {:induction false} CutRejoins(cur: string, s: string)
    ensures Join(Cut(cur, s), ",") == if s == "" then cur else Kept(cur + s)
    decreases |s|
  {
    if |s| > 0 {
      var rest := s[1..];
      KeptSnoc(cur, s[0]);
      HeadMoves(cur, s);
      if s[0] == ',' && Level(cur) == 0 {
        CutEmptyIff("", rest);
        if rest != "" {
          CutRejoins("", rest);
          assert "" + rest == rest;
          JoinCons(cur, Cut("", rest), ",");
          KeptAfterCut(cur, rest);
        }
      } else {
        CutRejoins(cur + [s[0]], rest);
      }
    }
  }

  lemma HeadMoves(cur: string, s: string)
    requires |s| > 0
    ensures cur + s == cur + [s[0]] + s[1..]
    ensures s[1..] == "" ==> cur + s == cur + [s[0]]
  {
  }

  /** Nothing is lost exactly when the input does not end in a top-level comma. */
  lemma RejoinIff(input: string)
    ensures Join(Cut("", input), ",") == input <==> !EndsWithTopComma(input)
    ensures EndsWithTopComma(input) ==> Join(Cut("", input), ",") == input[..|input| - 1]
  {
    CutRejoins("", input);
    assert "" + input == input;
  }

  /** No piece contains a top-level comma, and every piece but the last closes what it opens. */
  lemma {:induction false} CutOnlyAtTop(cur: string, s: string)
    requires NoTopComma(cur)
    ensures forall k :: 0 <= k < |Cut(cur, s)| ==> NoTopComma(Cut(cur, s)[k])
    ensures forall k :: 0 <= k < |Cut(cur, s)| - 1 ==> Level(Cut(cur, s)[k]) == 0
    decreases |s|
  {
    if |s| > 0 {
      if s[0] == ',' && Level(cur) == 0 {
        CutOnlyAtTop("", s[1..]);
      } else {
        NoTopCommaSnoc(cur, s[0]);
        CutOnlyAtTop(cur + [s[0]], s[1..]);
      }
    }
  }

  lemma NoTopCommaSnoc(s: string, c: char)
    ensures NoTopComma(s + [c]) <==> NoTopComma(s) && !(c == ',' && Level(s) == 0)
  {
    var t := s + [c];
    forall i: nat | i < |s| ensures TopCommaAt(t, i) <==> TopCommaAt(s, i) {
      assert t[..i] == s[..i];
    }
    assert t[..|s|] == s;
    assert TopCommaAt(t, |s|) <==> c == ',' && Level(s) == 0;
    if NoTopComma(t) {
      forall i: nat ensures !TopCommaAt(s, i) {
        assert !TopCommaAt(t, i);
      }
    }
  }

  /** A piece without top-level commas is read into the current piece. */
  lemma {:induction false} CutReads(cur: string, p: string, rest: string)
    requires NoTopComma(cur + p)
    ensures Cut(cur, p + rest) == Cut(cur + p, rest)
    decreases |p|
  {
    if |p| == 0 {
      assert p + rest == rest && cur + p == cur;
    } else {
      assert (p + rest)[1..] == p[1..] + rest;
      assert cur + [p[0]] + p[1..] == cur + p;
      assert (cur + p)[..|cur|] == cur && (cur + p)[|cur|] == p[0];
      assert !TopCommaAt(cur + p, |cur|);
      CutReads(cur + [p[0]], p[1..], rest);
    }
  }

  /** Printing and splitting: any list of pieces without top-level commas, all but the last
      closed and the last not empty, is recovered from its join. */
  lemma {:induction false} CutOfJoin(ps: seq<string>)
    requires |ps| > 0 && ps[|ps| - 1] != ""
    requires forall k :: 0 <= k < |ps| ==> NoTopComma(ps[k])
    requires forall k :: 0 <= k < |ps| - 1 ==> Level(ps[k]) == 0
    ensures Cut("", Join(ps, ",")) == ps
  {
    var p := ps[0];
    assert "" + p == p;
    if |ps| == 1 {
      CutReads("", p, "");
      assert p + "" == p;
    } else {
      var rest := Join(ps[1..], ",");
      CutOfJoin(ps[1..]);
      CutReads("", p, "," + rest);
      assert p + "," + rest == p + ("," + rest);
      assert ("," + rest)[1..] == rest;
    }
  }

  // ---- balance --------------------------------------------------------------------------

  /** The nesting never goes negative along `s`. */
  ghost predicate NeverNegative(s: string) {
    forall i :: 0 <= i <= |s| ==> Level(s[..i]) >= 0
  }

  ghost predicate Balanced(s: string) {
    NeverNegative(s) && Level(s) == 0
  }

  lemma NeverNegativeSnoc(cur: string, c: char)
    requires NeverNegative(cur) && Level(cur) + Step(c) >= 0
    ensures NeverNegative(cur + [c])
  {
    var next := cur + [c];
    LevelSnoc(cur, c);
    forall i | 0 <= i <= |next| ensures Level(next[..i]) >= 0 {
      if i <= |cur| { assert next[..i] == cur[..i]; } else { assert next[..i] == next; }
    }
  }

  lemma RestOpen(level: int, s: string)
    requires |s| > 0 && forall i :: 0 <= i <= |s| ==> level + Level(s[..i]) >= 0
    ensures forall i :: 0 <= i <= |s[1..]| ==> level + Step(s[0]) + Level(s[1..][..i]) >= 0
  {
    forall i | 0 <= i <= |s[1..]| ensures level + Step(s[0]) + Level(s[1..][..i]) >= 0 {
      assert s[..i + 1] == [s[0]] + s[1..][..i];
      LevelAppend([s[0]], s[1..][..i]);
      assert [s[0]][..0] == "";
    }
  }

  /** If the nesting of the input never goes negative and ends at zero, neither does that of
      any piece. */
  lemma {:induction false} PiecesBalanced(cur: string, s: string)
    requires NeverNegative(cur) && Level(cur + s) == 0
    requires forall i :: 0 <= i <= |s| ==> Level(cur) + Level(s[..i]) >= 0
    ensures forall k :: 0 <= k < |Cut(cur, s)| ==> Balanced(Cut(cur, s)[k])
    decreases |s|
  {
    if |s| == 0 {
      assert cur + s == cur;
    } else {
      var rest := s[1..];
      LevelSnoc(cur, s[0]);
      RestOpen(Level(cur), s);
      LevelAppend(cur + [s[0]], rest);
      assert cur + [s[0]] + rest == cur + s;
      if s[0] == ',' && Level(cur) == 0 {
        assert "" + rest == rest;
        PiecesBalanced("", rest);
      } else {
        assert rest[..0] == "";
        NeverNegativeSnoc(cur, s[0]);
        PiecesBalanced(cur + [s[0]], rest);
      }
    }
  }

  lemma BalancedPieces(input: string)
    requires Balanced(input)
    ensures forall k :: 0 <= k < |Cut("", input)| ==> Balanced(Cut("", input)[k])
  {
    assert "" + input == input;
    PiecesBalanced("", input);
  }

  // ---- calls ----------------------------------------------------------------------------

  /** How many brackets of either kind are open at the end of `s`. */
  ghost function Open(s: string): int {
    multiset(s)['('] as int + multiset(s)['{'] as int - multiset(s)[')'] as int - multiset(s)['}'] as int
  }

  /** Parentheses and braces nest, and nothing else does. */
  lemma {:induction false} LevelIsOpen(s: string)
    ensures Level(s) == Open(s)
  {
    if |s| > 0 {
      var front, last := s[..|s| - 1], s[|s| - 1];
      LevelIsOpen(front);
      assert s == front + [last];
    }
  }

  /** The arguments of a call: brackets are closed after they are opened, and all of them. */
  ghost predicate Closed(args: string) {
    Open(args) == 0 && forall i :: 0 <= i <= |args| ==> Open(args[..i]) >= 0
  }

  predicate Bracket(c: char) {
    c == '(' || c == ')' || c == '{' || c == '}'
  }

  ghost predicate IsName(f: string) {
    forall i :: 0 <= i < |f| ==> !Bracket(f[i]) && f[i] != ','
  }

  function Call(f: string, args: string): string {
    f + "(" + args + ")"
  }

  lemma {:induction false} NameLevel(f: string)
    requires IsName(f)
    ensures Level(f) == 0 && NoTopComma(f)
  {
    if |f| > 0 {
      NameLevel(f[..|f| - 1]);
    }
  }

  /** A call contains no comma outside its parentheses and closes what it opens. */
  lemma CallIsClosed(f: string, args: string)
    requires IsName(f) && Closed(args)
    ensures NoTopComma(Call(f, args)) && Level(Call(f, args)) == 0
  {
    var head := f + "(";
    NameLevel(f);
    NoTopCommaSnoc(f, '(');
    LevelSnoc(f, '(');
    InsideCall(head, args, |args|);
    LevelAppend(head, args);
    LevelIsOpen(args);
    assert args[..|args|] == args;
    NoTopCommaSnoc(head + args, ')');
    LevelSnoc(head + args, ')');
  }

  lemma {:induction false} InsideCall(head: string, args: string, n: nat)
    requires Closed(args) && Level(head) == 1 && NoTopComma(head) && n <= |args|
    ensures NoTopComma(head + args[..n])
  {
    if n == 0 {
      assert head + args[..0] == head;
    } else {
      InsideCall(head, args, n - 1);
      LevelAppend(head, args[..n - 1]);
      LevelIsOpen(args[..n - 1]);
      NoTopCommaSnoc(head + args[..n - 1], args[n - 1]);
      assert head + args[..n - 1] + [args[n - 1]] == head + args[..n];
    }
  }

  /** A list of calls comes apart into the calls, whatever commas and brackets their arguments
      contain. */
  lemma CallsComeApart(names: seq<string>, args: seq<string>, calls: seq<string>)
    requires |names| == |args| == |calls| > 0
    requires forall k :: 0 <= k < |calls| ==> IsName(names[k]) && Closed(args[k]) && calls[k] == Call(names[k], args[k])
    ensures Cut("", Join(calls, ",")) == calls
  {
    forall k | 0 <= k < |calls| ensures NoTopComma(calls[k]) && Level(calls[k]) == 0 && calls[k] != "" {
      CallIsClosed(names[k], args[k]);
    }
    CutOfJoin(calls);
  }

  /** Parentheses and braces both keep their commas. */
  lemma TwoCalls()
    ensures Cut("", "a(1,2),b({3,4})") == ["a(1,2)", "b({3,4})"]
  {
    var names, args, calls := ["a", "b"], ["1,2", "{3,4}"], ["a(1,2)", "b({3,4})"];
    assert Call("a", "1,2") == "a(1,2)" && Call("b", "{3,4}") == "b({3,4})";
    PairClosed('1', '2');
    BracesClosed();
    assert calls[1..] == ["b({3,4})"];
    assert Join(calls, ",") == "a(1,2),b({3,4})";
    CallsComeApart(names, args, calls);
  }

  lemma PairClosed(a: char, b: char)
    requires !Bracket(a) && !Bracket(b)
    ensures Closed([a, ',', b])
  {
    var s := [a, ',', b];
    assert s[..0] == [] && s[..1] == [a] && s[..2] == [a, ','] && s[..3] == s;
  }

  lemma BracesClosed()
    ensures Closed("{3,4}")
  {
    var s := "{3,4}";
    assert s[..0] == [] && s[..1] == "{" && s[..2] == "{3" && s[..3] == "{3," && s[..4] == "{3,4" && s[..5] == s;
  }
}
