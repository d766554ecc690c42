/** AuctionHouseItem::Bid: the bid book of one auctioned item. */
module AuctionBids {
  import opened Common

  datatype AuctionBid = AuctionBid(buyer: int, copper: nat, credits: nat, time: int)

  type Book = seq<AuctionBid>

  function Last(bids: Book): AuctionBid
    requires bids != []
  {
    bids[|bids| - 1]
  }

  /** Enough in one of the currencies, and not against one's own standing bid. */
  predicate Accepts(bids: Book, buyer: int, copper: nat, credits: nat) {
    bids == [] || ((copper > Last(bids).copper || credits > Last(bids).credits) && Last(bids).buyer != buyer)
  }

  function BidOf(bids: Book, buyer: int): (r: nat)
    ensures r <= |bids| && (r < |bids| ==> bids[r].buyer == buyer)
    ensures forall i :: 0 <= i < r ==> bids[i].buyer != buyer
  {
    FirstWhere(bids, (b: AuctionBid) => b.buyer == buyer)
  }

  function Without(bids: Book, buyer: int): Book {
    var i := BidOf(bids, buyer);
    if i < |bids| then bids[..i] + bids[i + 1..] else bids
  }

  function Placed(bids: Book, b: AuctionBid): Book {
    if Accepts(bids, b.buyer, b.copper, b.credits) then Without(bids, b.buyer) + [b] else bids
  }

  class AuctionHouseItem {
    var mBids: Book

    constructor ()
      ensures mBids == []
    {
      mBids := [];
    }

    method Bid(buyer: int, copper: nat, credits: nat, time: int) returns (accepted: bool)
      modifies this
      ensures accepted <==> Accepts(old(mBids), buyer, copper, credits)
      ensures mBids == Placed(old(mBids), AuctionBid(buyer, copper, credits, time))
    {
      if |mBids| == 0 || copper > mBids[|mBids| - 1].copper || credits > mBids[|mBids| - 1].credits {
        if |mBids| != 0 && mBids[|mBids| - 1].buyer == buyer {
          return false;
        }
        for i := 0 to |mBids|
          invariant mBids == old(mBids)
          invariant forall j :: 0 <= j < i ==> mBids[j].buyer != buyer
        {
          if mBids[i].buyer == buyer {
            assert BidOf(mBids, buyer) == i;
            mBids := mBids[..i] + mBids[i + 1..];
            break;
          }
        }
        assert mBids == Without(old(mBids), buyer);
        mBids := mBids + [AuctionBid(buyer, copper, credits, time)];
        return true;
      }
      return false;
    }
  }

  // ---- runs -----------------------------------------------------------------------------

  function Run(bids: Book, offers: seq<AuctionBid>): Book {
    if |offers| == 0 then bids else Placed(Run(bids, offers[..|offers| - 1]), offers[|offers| - 1])
  }

  ghost predicate DistinctBuyers(bids: Book) {
    forall i, j :: 0 <= i < j < |bids| ==> bids[i].buyer != bids[j].buyer
  }

  ghost predicate Increasing(bids: Book) {
    forall i, j :: 0 <= i < j < |bids| ==> bids[i].copper < bids[j].copper
  }

  lemma WithoutKeeps(bids: Book, buyer: int)
    requires DistinctBuyers(bids)
    ensures DistinctBuyers(Without(bids, buyer))
    ensures forall i :: 0 <= i < |Without(bids, buyer)| ==> Without(bids, buyer)[i].buyer != buyer
    ensures Increasing(bids) ==> Increasing(Without(bids, buyer))
    ensures bids != [] && Last(bids).buyer != buyer ==> Without(bids, buyer) != [] && Last(Without(bids, buyer)) == Last(bids)
  {
    var k, w := BidOf(bids, buyer), Without(bids, buyer);
    forall i | 0 <= i < |w| ensures w[i] == if i < k then bids[i] else bids[i + 1] {}
  }

  /** No buyer has two bids in the book, in any currency and along every run. */
  lemma {:induction false} BuyersDistinct(offers: seq<AuctionBid>)
    ensures DistinctBuyers(Run([], offers))
  {
    if |offers| > 0 {
      BuyersDistinct(offers[..|offers| - 1]);
      WithoutKeeps(Run([], offers[..|offers| - 1]), offers[|offers| - 1].buyer);
    }
  }

  /** The copper amounts stay strictly increasing, even when an earlier bid of the same buyer
      is erased from the middle, exactly when the bid was not accepted on credits alone. */
  lemma IncreasingIff(bids: Book, b: AuctionBid)
    requires DistinctBuyers(bids) && Increasing(bids)
    ensures Increasing(Placed(bids, b)) <==>
            !(Accepts(bids, b.buyer, b.copper, b.credits) && bids != [] && b.copper <= Last(bids).copper)
  {
    WithoutKeeps(bids, b.buyer);
    var w := Without(bids, b.buyer);
    if Accepts(bids, b.buyer, b.copper, b.credits) && bids != [] {
      assert (w + [b])[|w| - 1] == Last(bids) && (w + [b])[|w|] == b;
    }
  }

  /** The accepted offers of a run from an empty book. */
  function Accepted(offers: seq<AuctionBid>): seq<AuctionBid> {
    if |offers| == 0 then []
    else
      var n := |offers| - 1;
      var b := offers[n];
      Accepted(offers[..n]) + if Accepts(Run([], offers[..n]), b.buyer, b.copper, b.credits) then [b] else []
  }

  /** The book is strictly increasing in copper and its last entry is the latest and highest
      accepted offer. */
  ghost predicate Orderly(book: Book, acc: seq<AuctionBid>) {
    && DistinctBuyers(book) && Increasing(book) && (book == [] <==> acc == [])
    && (forall i :: 0 <= i < |book| ==> book[i].credits == 0)
    && (book != [] ==> Last(book) == acc[|acc| - 1])
    && (forall i :: 0 <= i < |acc| ==> acc[i].copper <= Last(book).copper)
  }

  lemma OrderlyStep(book: Book, acc: seq<AuctionBid>, b: AuctionBid)
    requires Orderly(book, acc) && b.credits == 0
    ensures Orderly(Placed(book, b),
                    acc + if Accepts(book, b.buyer, b.copper, b.credits) then [b] else [])
  {
    if Accepts(book, b.buyer, b.copper, b.credits) {
      IncreasingIff(book, b);
      WithoutKeeps(book, b.buyer);
      WithoutCredits(book, b.buyer);
      AppendedOrderly(book, Without(book, b.buyer), acc, b);
    } else {
      assert acc + [] == acc;
    }
  }

  lemma WithoutCredits(book: Book, buyer: int)
    requires forall i :: 0 <= i < |book| ==> book[i].credits == 0
    ensures var w := Without(book, buyer); forall i :: 0 <= i < |w| ==> w[i].credits == 0
  {
    var k, w := BidOf(book, buyer), Without(book, buyer);
    forall i | 0 <= i < |w| ensures w[i].credits == 0 {
      assert w[i] == book[if i < k then i else i + 1];
    }
  }

  lemma AppendedOrderly(book: Book, w: Book, acc: seq<AuctionBid>, b: AuctionBid)
    requires Orderly(book, acc) && b.credits == 0 && Increasing(w + [b]) && DistinctBuyers(w)
    requires forall i :: 0 <= i < |w| ==> w[i].credits == 0 && w[i].buyer != b.buyer
    requires book == [] || Last(book).copper < b.copper
    ensures Orderly(w + [b], acc + [b])
  {
    var next, now := w + [b], acc + [b];
    forall i | 0 <= i < |next| ensures next[i].credits == 0 {}
    forall i, j | 0 <= i < j < |next| ensures next[i].buyer != next[j].buyer {
      assert w[i].buyer != b.buyer;
    }
    forall i | 0 <= i < |now| ensures now[i].copper <= Last(next).copper {
      assert i < |acc| ==> acc[i].copper <= Last(book).copper;
    }
  }

  /** With copper as the only currency the book stays orderly along every run. */
  lemma {:induction false} CopperOnly(offers: seq<AuctionBid>)
    requires forall i :: 0 <= i < |offers| ==> offers[i].credits == 0
    ensures Orderly(Run([], offers), Accepted(offers))
  {
    if |offers| > 0 {
      var n := |offers| - 1;
      CopperOnly(offers[..n]);
      OrderlyStep(Run([], offers[..n]), Accepted(offers[..n]), offers[n]);
    }
  }

  /** With two currencies the standing bid can fall: credits alone let a lower copper in. */
  lemma CreditsUndercut(a: int, b: int)
    requires a != b
    ensures Run([], [AuctionBid(a, 10, 0, 0), AuctionBid(b, 1, 1, 0)]) == [AuctionBid(a, 10, 0, 0), AuctionBid(b, 1, 1, 0)]
  {
    var x, y := AuctionBid(a, 10, 0, 0), AuctionBid(b, 1, 1, 0);
    assert [x, y][..1] == [x] && [x][..0] == [];
    assert Run([], [x]) == [x];
  }

  // ---- the other buyers -----------------------------------------------------------------

  /** The bids of everybody but one buyer, in order. */
  ghost function Others(bids: Book, buyer: int): Book {
    if |bids| == 0 then []
    else Others(bids[..|bids| - 1], buyer) + if Last(bids).buyer == buyer then [] else [Last(bids)]
  }

  lemma OthersSnoc(bids: Book, b: AuctionBid, buyer: int)
    ensures Others(bids + [b], buyer) == Others(bids, buyer) + if b.buyer == buyer then [] else [b]
  {
    assert (bids + [b])[..|bids|] == bids;
  }

  lemma {:induction false} OthersAppend(a: Book, b: Book, buyer: int)
    ensures Others(a + b, buyer) == Others(a, buyer) + Others(b, buyer)
  {
    if |b| == 0 {
      assert a + b == a;
    } else {
      var front, last := b[..|b| - 1], b[|b| - 1];
      OthersAppend(a, front, buyer);
      OthersSnoc(a + front, last, buyer);
      OthersSnoc(front, last, buyer);
      assert b == front + [last] && a + b == a + front + [last];
    }
  }

  lemma OthersWithout(bids: Book, buyer: int)
    ensures Others(Without(bids, buyer), buyer) == Others(bids, buyer)
  {
    var i := BidOf(bids, buyer);
    if i < |bids| {
      OthersAppend(bids[..i], bids[i + 1..], buyer);
      OthersAppend(bids[..i] + [bids[i]], bids[i + 1..], buyer);
      OthersSnoc(bids[..i], bids[i], buyer);
      assert bids == bids[..i] + [bids[i]] + bids[i + 1..];
    }
  }

  /** An offer is taken when the book is empty, or when it beats the standing bid in one of the
      currencies and is not by the same buyer. It then stands last, and the bids of all other
      buyers stay as they were, in order; a refused offer changes nothing. */
  lemma OthersStay(bids: Book, b: AuctionBid)
    ensures Others(Placed(bids, b), b.buyer) == Others(bids, b.buyer)
    ensures bids == [] || ((b.copper > Last(bids).copper || b.credits > Last(bids).credits) && b.buyer != Last(bids).buyer) ==>
              Placed(bids, b) != [] && Last(Placed(bids, b)) == b
    ensures bids != [] && (b.buyer == Last(bids).buyer || (b.copper <= Last(bids).copper && b.credits <= Last(bids).credits)) ==>
              Placed(bids, b) == bids
  {
    OthersWithout(bids, b.buyer);
    OthersSnoc(Without(bids, b.buyer), b, b.buyer);
  }
}
