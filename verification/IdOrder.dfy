/** The iteration order of `std::map<int, ...>`. */
module IdOrder {

  lemma AnyOf<T>(s: set<T>) returns (x: T)
    requires s != {}
    ensures x in s
  {
    x :| x in s;
  }

  lemma {:induction false} LeastExists(s: set<int>) returns (m: int)
    requires s != {}
    ensures m in s && forall k :: k in s ==> m <= k
  {
    var x := AnyOf(s);
    m := x;
    if s - {x} != {} {
      var l := LeastExists(s - {x});
      m := if x < l then x else l;
      forall k | k in s ensures m <= k {
        assert k == x || k in s - {x};
      }
    } else {
      forall k | k in s ensures k == x {
        assert k !in s - {x};
      }
    }
  }

  function Least(s: set<int>): (m: int)
    requires s != {}
    ensures m in s && forall k :: k in s ==> m <= k
  {
    assert exists m :: m in s && forall k :: k in s ==> m <= k by { var l := LeastExists(s); }
    var m :| m in s && forall k :: k in s ==> m <= k;
    m
  }

  /** The keys of a map in the order a loop over the map meets them. */
  function Ascending(s: set<int>): (r: seq<int>)
    ensures forall k :: k in r <==> k in s
    ensures forall i, j :: 0 <= i < j < |r| ==> r[i] < r[j]
    decreases s
  {
    if s == {} then [] else [Least(s)] + Ascending(s - {Least(s)})
  }
}
