/** The iteration order of `std::map<std::string, ...>`: keys ascending by character. */
module KeyOrder {

  predicate Less(a: string, b: string) {
    if |b| == 0 then false
    else if |a| == 0 then true
    else a[0] < b[0] || (a[0] == b[0] && Less(a[1..], b[1..]))
  }

  lemma {:induction false} LessTransitive(a: string, b: string, c: string)
    requires Less(a, b) && Less(b, c)
    ensures Less(a, c)
  {
    if |a| > 0 && a[0] == b[0] == c[0] {
      LessTransitive(a[1..], b[1..], c[1..]);
    }
  }

  lemma {:induction false} LessAsymmetric(a: string, b: string)
    ensures !(Less(a, b) && Less(b, a))
  {
    if |a| > 0 && |b| > 0 && a[0] == b[0] {
      LessAsymmetric(a[1..], b[1..]);
    }
  }

  lemma {:induction false} LessTotal(a: string, b: string)
    ensures a == b || Less(a, b) || Less(b, a)
  {
    if |a| > 0 && |b| > 0 && a[0] == b[0] {
      LessTotal(a[1..], b[1..]);
      assert a == [a[0]] + a[1..] && b == [b[0]] + b[1..];
    } else if |a| == 0 && |b| == 0 {
      assert a == b;
    }
  }

  predicate IsLeast(m: string, s: set<string>) {
    m in s && forall k :: k in s && k != m ==> Less(m, k)
  }

  lemma {:induction false} LeastExists(s: set<string>) returns (m: string)
    requires s != {}
    ensures IsLeast(m, s)
  {
    var x :| x in s;
    if s == {x} {
      m := x;
    } else {
      var l := LeastExists(s - {x});
      LessTotal(x, l);
      if Less(x, l) {
        m := x;
        forall k | k in s && k != x ensures Less(x, k) {
          if k != l { LessTransitive(x, l, k); }
        }
      } else {
        m := l;
      }
    }
  }

  lemma LeastUnique(s: set<string>, m: string, n: string)
    requires IsLeast(m, s) && IsLeast(n, s)
    ensures m == n
  {
    LessAsymmetric(m, n);
  }

  function Least(s: set<string>): (m: string)
    requires s != {}
    ensures IsLeast(m, s)
  {
    assert exists m :: IsLeast(m, s) by { var l := LeastExists(s); }
    assert forall m, n :: IsLeast(m, s) && IsLeast(n, s) ==> m == n by {
      forall m, n | IsLeast(m, s) && IsLeast(n, s) ensures m == n { LeastUnique(s, m, n); }
    }
    var m :| IsLeast(m, s);
    m
  }

  /** The keys of a map in the order a loop over the map meets them. */
  function Ascending(s: set<string>): (r: seq<string>)
    ensures forall k :: k in r <==> k in s
    ensures forall i, j :: 0 <= i < j < |r| ==> Less(r[i], r[j])
    decreases s
  {
    if s == {} then [] else [Least(s)] + Ascending(s - {Least(s)})
  }

  /** The first difference decides, and a prefix comes first. */
  lemma {:induction false} LessAtDifference(p: string, c: char, d: char, x: string, y: string)
    requires c < d
    ensures Less(p + ([c] + x), p + ([d] + y)) && Less(p, p + ([c] + x))
  {
    if |p| == 0 {
      assert p + ([c] + x) == [c] + x && p + ([d] + y) == [d] + y;
    } else {
      LessAtDifference(p[1..], c, d, x, y);
      assert (p + ([c] + x))[1..] == p[1..] + ([c] + x) && (p + ([d] + y))[1..] == p[1..] + ([d] + y);
    }
  }
}
