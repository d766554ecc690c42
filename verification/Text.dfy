/** String primitives used by the entity store, the crafting rules and the ability loader:
    `std::string::find` and the searching, splitting and replacing helpers of Util.cpp. */
module Text {

  predicate OccursAt(s: string, p: string, i: nat) {
    i + |p| <= |s| && s[i..i + |p|] == p
  }

  /** `s.find(p, from)`: the least position from `from` on at which `p` occurs, -1 for npos. */
  function Find(s: string, p: string, from: nat): (r: int)
    requires from <= |s|
    ensures r == -1 || (from <= r <= |s| - |p|)
    decreases |s| - from
  {
    if from + |p| > |s| then -1
    else if OccursAt(s, p, from) then from
    else Find(s, p, from + 1)
  }

  function First(s: string, p: string): (r: int)
    ensures r == -1 || (0 <= r <= |s| - |p|)
  {
    Find(s, p, 0)
  }

  ghost predicate NoneBetween(s: string, p: string, from: nat, to: nat) {
    forall i: nat :: from <= i < to ==> !OccursAt(s, p, i)
  }

  lemma {:induction false} FindIsLeast(s: string, p: string, from: nat)
    requires from <= |s|
    ensures var r := Find(s, p, from);
            && (r != -1 ==> OccursAt(s, p, r))
            && NoneBetween(s, p, from, if r == -1 then |s| + 1 else r)
    decreases |s| - from
  {
    if from + |p| <= |s| && !OccursAt(s, p, from) {
      FindIsLeast(s, p, from + 1);
    }
  }

  lemma FirstIsLeast(s: string, p: string)
    ensures First(s, p) != -1 ==> OccursAt(s, p, First(s, p))
    ensures NoneBetween(s, p, 0, if First(s, p) == -1 then |s| + 1 else First(s, p))
  {
    FindIsLeast(s, p, 0);
  }

  /** Searching on from `|done|` is searching what follows. */
  lemma {:induction false} FindInRest(done: string, rest: string, p: string, from: nat)
    requires from <= |rest|
    ensures Find(done + rest, p, |done| + from) ==
            if Find(rest, p, from) == -1 then -1 else |done| + Find(rest, p, from)
    decreases |rest| - from
  {
    if from + |p| <= |rest| {
      assert (done + rest)[|done| + from..|done| + from + |p|] == rest[from..from + |p|];
      if !OccursAt(rest, p, from) {
        FindInRest(done, rest, p, from + 1);
      }
    }
  }

  function Join(pieces: seq<string>, sep: string): string {
    if |pieces| == 0 then ""
    else if |pieces| == 1 then pieces[0]
    else pieces[0] + sep + Join(pieces[1..], sep)
  }

  lemma JoinCons(piece: string, rest: seq<string>, sep: string)
    requires |rest| > 0
    ensures Join([piece] + rest, sep) == piece + sep + Join(rest, sep)
  {
    assert ([piece] + rest)[1..] == rest;
  }

  /** Appending one piece appends a separator and the piece. */
  lemma {:induction false} JoinSnoc(pieces: seq<string>, piece: string, sep: string)
    ensures Join(pieces + [piece], sep) ==
            if |pieces| == 0 then piece else Join(pieces, sep) + sep + piece
  {
    if |pieces| > 1 {
      JoinSnoc(pieces[1..], piece, sep);
      assert pieces + [piece] == [pieces[0]] + (pieces[1..] + [piece]);
      JoinCons(pieces[0], pieces[1..] + [piece], sep);
      calc {
        Join(pieces + [piece], sep);
        pieces[0] + sep + (Join(pieces[1..], sep) + sep + piece);
        (pieces[0] + sep + Join(pieces[1..], sep)) + sep + piece;
      }
    } else if |pieces| == 1 {
      assert (pieces + [piece])[1..] == [piece];
    }
  }

  // ---- Util::Split ----------------------------------------------------------------------

  /** The scan resumes one character past the start of a match, whatever the length of the
      delimiter. */
  function Pieces(s: string, delim: string): (r: seq<string>)
    requires |delim| > 0
    ensures |r| > 0
  {
    var f := First(s, delim);
    if f == -1 then [s] else [s[..f]] + Pieces(s[f + 1..], delim)
  }

  method Split(source: string, delim: string) returns (dest: seq<string>)
    requires |delim| > 0
    ensures dest == Pieces(source, delim)
  {
    dest := [];
    var pos := 0;
    var fpos := 0;
    ghost var done, rest := "", source;
    while fpos != -1
      invariant source == done + rest && pos == |done|
      invariant fpos == -1 ==> Pieces(rest, delim) == [rest]
      invariant Pieces(source, delim) == dest + Pieces(rest, delim)
      decreases if fpos == -1 then 0 else 1, |rest|
    {
      fpos := Find(source, delim, pos);
      ghost var piece, done', rest' := PiecesStep(source, done, rest, delim);
      if fpos != -1 {
        Assoc3(dest, [piece], Pieces(rest', delim));
        dest := dest + [source[pos..fpos]];
        done, rest := done', rest';
        pos := fpos + 1;
      }
    }
    var extract := SubstrFrom(source, pos, done, rest);
    dest := dest + [extract];
  }

  /** `source.substr(pos)`, when `done` has been passed and `rest` is left. */
  method SubstrFrom(source: string, pos: nat, ghost done: string, ghost rest: string) returns (extract: string)
    requires source == done + rest && pos == |done|
    ensures extract == rest
  {
    extract := source[pos..];
  }

  /** One pass of the splitting loop: what it cuts off, what it has passed and what it leaves. */
  lemma PiecesStep(source: string, done: string, rest: string, delim: string)
    returns (piece: string, done': string, rest': string)
    requires |delim| > 0 && source == done + rest
    ensures var f := Find(source, delim, |done|);
            if f == -1 then Pieces(rest, delim) == [rest]
            else && piece == source[|done|..f]
                 && source == done' + rest' && |done'| == f + 1 && |rest'| < |rest|
                 && Pieces(rest, delim) == [piece] + Pieces(rest', delim)
  {
    FindInRest(done, rest, delim, 0);
    PiecesFirst(rest, delim);
    var f := First(rest, delim);
    if f == -1 {
      piece, done', rest' := rest, done, "";
    } else {
      piece, done', rest' := CutAt(done, rest, f);
    }
  }

  lemma PiecesFirst(s: string, delim: string)
    requires |delim| > 0
    ensures var f := First(s, delim);
            Pieces(s, delim) == if f == -1 then [s] else [s[..f]] + Pieces(s[f + 1..], delim)
  {
  }

  lemma CutAt(done: string, rest: string, f: nat) returns (piece: string, done': string, rest': string)
    requires f < |rest|
    ensures piece == rest[..f] && rest' == rest[f + 1..] && |done'| == |done| + f + 1
    ensures (done + rest)[|done|..|done| + f] == piece && done + rest == done' + rest'
  {
    piece, done', rest' := rest[..f], done + rest[..f + 1], rest[f + 1..];
  }

  lemma Assoc3<T>(a: seq<T>, b: seq<T>, c: seq<T>)
    ensures a + (b + c) == a + b + c
  {
  }

  /** Whatever the delimiter, its first character alone glues the pieces back together. */
  lemma {:induction false} PiecesRejoin(s: string, delim: string)
    requires |delim| > 0
    ensures Join(Pieces(s, delim), delim[..1]) == s
  {
    var f := First(s, delim);
    if f != -1 {
      FirstIsLeast(s, delim);
      PiecesRejoin(s[f + 1..], delim);
      JoinCons(s[..f], Pieces(s[f + 1..], delim), delim[..1]);
      assert s[f] == s[f..f + 1][0] == delim[0];
      assert s == s[..f] + delim[..1] + s[f + 1..];
    }
  }

  /** With a one-character delimiter no piece contains it. */
  lemma {:induction false} PiecesClean(s: string, delim: string)
    requires |delim| == 1
    ensures forall p :: p in Pieces(s, delim) ==> delim[0] !in p
  {
    var f := First(s, delim);
    FirstIsLeast(s, delim);
    forall i: nat | i < (if f == -1 then |s| else f) ensures s[i] != delim[0] {
      assert !OccursAt(s, delim, i);
    }
    if f != -1 {
      PiecesClean(s[f + 1..], delim);
    }
  }

  /** The pieces are the only delimiter-free list that joins to the source. */
  lemma {:induction false} PiecesOfJoin(pieces: seq<string>, delim: string)
    requires |pieces| > 0 && |delim| == 1
    requires forall p :: p in pieces ==> delim[0] !in p
    ensures Pieces(Join(pieces, delim), delim) == pieces
  {
    assert pieces[0] in pieces;
    if |pieces| == 1 {
      NoneIn(pieces[0], delim);
      assert pieces == [pieces[0]];
    } else {
      var rest := Join(pieces[1..], delim);
      PiecesOfJoin(pieces[1..], delim);
      FirstAfter(pieces[0], delim, rest);
      HeadPiece(pieces[0], delim, rest);
      assert pieces == [pieces[0]] + pieces[1..];
    }
  }

  lemma {:induction false} NoneIn(p: string, delim: string)
    requires |delim| == 1 && delim[0] !in p
    ensures First(p, delim) == -1
  {
    FirstIsLeast(p, delim);
  }

  lemma {:induction false} FirstAfter(p: string, delim: string, rest: string)
    requires |delim| == 1 && delim[0] !in p
    ensures First(p + delim + rest, delim) == |p|
  {
    var s := p + delim + rest;
    FirstIsLeast(s, delim);
    assert OccursAt(s, delim, |p|);
    forall i: nat | i < |p| ensures !OccursAt(s, delim, i) {
      assert s[i..i + 1] == [p[i]];
    }
  }

  lemma HeadPiece(p: string, delim: string, rest: string)
    requires |delim| == 1 && First(p + delim + rest, delim) == |p|
    ensures Pieces(p + delim + rest, delim) == [p] + Pieces(rest, delim)
  {
    var s := p + delim + rest;
    assert s[..|p|] == p && s[|p| + 1..] == rest;
  }

  // ---- Util::ReplaceAllTo ---------------------------------------------------------------

  /** Non-overlapping replacement from left to right, one position at a time. */
  function Replaced(s: string, from: string, to: string): string
    requires |from| > 0
  {
    if |s| == 0 then ""
    else if OccursAt(s, from, 0) then to + Replaced(s[|from|..], from, to)
    else [s[0]] + Replaced(s[1..], from, to)
  }

  method ReplaceAllTo(str: string, from: string, to: string) returns (n: string)
    requires |from| > 0
    ensures n == Replaced(str, from, to)
  {
    n := str;
    var startPos := 0;
    ghost var done, rest := "", str;
    var at := Find(n, from, startPos);
    while at != -1
      invariant n == done + rest && startPos == |done| && at == Find(n, from, startPos)
      invariant Replaced(str, from, to) == done + Replaced(rest, from, to)
      decreases |rest|
    {
      done, rest := ReplaceStep(n, done, rest, from, to);
      n := n[..at] + to + n[at + |from|..];
      startPos := at + |to|;
      at := Find(n, from, startPos);
    }
    FindInRest(done, rest, from, 0);
    ReplacedAtFirst(rest, from, to);
  }

  /** One pass of the replacing loop: how much is final and what is still to be searched. */
  lemma ReplaceStep(n: string, done: string, rest: string, from: string, to: string)
    returns (done': string, rest': string)
    requires |from| > 0 && n == done + rest && Find(n, from, |done|) != -1
    ensures var at := Find(n, from, |done|);
            n[..at] + to + n[at + |from|..] == done' + rest' && |done'| == at + |to|
    ensures |rest'| < |rest|
    ensures done + Replaced(rest, from, to) == done' + Replaced(rest', from, to)
  {
    FindInRest(done, rest, from, 0);
    var f := First(rest, from);
    ReplacedBehind(done, rest, from, to);
    done', rest' := Spliced(done, rest, f, |from|, to);
  }

  lemma ReplacedBehind(done: string, rest: string, from: string, to: string)
    requires |from| > 0 && First(rest, from) != -1
    ensures var f := First(rest, from);
            done + Replaced(rest, from, to) == done + rest[..f] + to + Replaced(rest[f + |from|..], from, to)
  {
    ReplacedAtFirst(rest, from, to);
    var f := First(rest, from);
    var r := Replaced(rest[f + |from|..], from, to);
    Assoc(done, rest[..f], to, r);
  }

  lemma Spliced(done: string, rest: string, f: nat, k: nat, to: string) returns (done': string, rest': string)
    requires f + k <= |rest|
    ensures done' == done + rest[..f] + to && rest' == rest[f + k..]
    ensures (done + rest)[..|done| + f] + to + (done + rest)[|done| + f + k..] == done' + rest'
  {
    done', rest' := done + rest[..f] + to, rest[f + k..];
    assert (done + rest)[..|done| + f] == done + rest[..f];
    assert (done + rest)[|done| + f + k..] == rest[f + k..];
  }

  /** Replacing up to the first match and going on behind it. */
  lemma ReplacedAtFirst(s: string, from: string, to: string)
    requires |from| > 0
    ensures var f := First(s, from);
            Replaced(s, from, to) == if f == -1 then s else s[..f] + to + Replaced(s[f + |from|..], from, to)
  {
    var f := First(s, from);
    if f == -1 {
      FirstIsLeast(s, from);
      assert s + "" == s;
      ReplacedSkip(s, "", from, to);
    } else {
      var head, tail := s[..f], s[f + |from|..];
      MatchSplits(s, from);
      ReplacedSkip(head, from + tail, from, to);
      ReplacedMatch(from, tail, to);
      assert head + (to + Replaced(tail, from, to)) == head + to + Replaced(tail, from, to);
    }
  }

  lemma MatchSplits(s: string, p: string)
    requires |p| > 0 && First(s, p) != -1
    ensures var f := First(s, p);
            s == s[..f] + (p + s[f + |p|..]) && NoneBetween(s, p, 0, f)
  {
    FirstIsLeast(s, p);
    var f := First(s, p);
    assert s == s[..f] + s[f..f + |p|] + s[f + |p|..];
  }

  lemma Assoc(a: string, b: string, c: string, d: string)
    ensures a + (b + c + d) == a + b + c + d
  {
  }

  /** Text in which no match starts is copied. */
  lemma {:induction false} ReplacedSkip(head: string, rest: string, from: string, to: string)
    requires |from| > 0
    requires NoneBetween(head + rest, from, 0, |head|)
    ensures Replaced(head + rest, from, to) == head + Replaced(rest, from, to)
  {
    if |head| == 0 {
      assert head + rest == rest;
    } else {
      var tail := head[1..];
      assert head + rest == [head[0]] + (tail + rest);
      assert !OccursAt(head + rest, from, 0);
      forall i: nat | i < |tail| ensures !OccursAt(tail + rest, from, i) {
        assert !OccursAt(head + rest, from, i + 1);
        OccursShift(head[0], tail + rest, from, i);
      }
      ReplacedSkip(tail, rest, from, to);
      ReplacedCopy(head[0], tail + rest, from, to);
      assert head == [head[0]] + tail;
    }
  }

  lemma OccursShift(c: char, s: string, p: string, i: nat)
    ensures OccursAt([c] + s, p, i + 1) == OccursAt(s, p, i)
  {
    if i + |p| <= |s| {
      assert ([c] + s)[i + 1..i + 1 + |p|] == s[i..i + |p|];
    }
  }

  /** A match at the head is replaced; a character that starts no match is copied. */
  lemma ReplacedMatch(from: string, rest: string, to: string)
    requires |from| > 0
    ensures Replaced(from + rest, from, to) == to + Replaced(rest, from, to)
  {
    assert OccursAt(from + rest, from, 0);
    assert (from + rest)[|from|..] == rest;
    assert (from + rest)[..0] + to == to;
  }

  lemma ReplacedCopy(c: char, rest: string, from: string, to: string)
    requires |from| > 0 && !OccursAt([c] + rest, from, 0)
    ensures Replaced([c] + rest, from, to) == [c] + Replaced(rest, from, to)
  {
    assert ([c] + rest)[1..] == rest;
  }
}
