/** The pagination links of the list endpoints, and what a client that follows them gets to see. */
module Pagination {

  const MAX_INT := 0x7FFF_FFFF_FFFF_FFFF

  /** Signed 64-bit addition. */
  function Add64(a: int, b: int): int
    requires 0 <= a <= MAX_INT && 0 <= b <= MAX_INT
  {
    if a + b <= MAX_INT then a + b else a + b - 0x1_0000_0000_0000_0000
  }

  /** Integer division that truncates toward zero. */
  function Quotient(a: int, b: int): int
    requires b > 0
  {
    if a >= 0 then a / b else -((-a) / b)
  }

  datatype Rel = First | Prev | Next | Last

  datatype Link = Link(rel: Rel, offset: int)

  predicate ValidRequest(limit: int, offset: int, total: int) {
    1 <= limit <= MAX_INT && 0 <= offset <= MAX_INT && 0 <= total <= MAX_INT
  }

  /** The page at this offset is aligned and holds the last item. */
  predicate IsLastPage(limit: int, total: int, offset: int)
    requires limit > 0
  {
    0 <= offset < total <= offset + limit && offset % limit == 0
  }

  /** The links a response should carry. */
  predicate ShouldLink(link: Link, limit: int, offset: int, total: int)
    requires ValidRequest(limit, offset, total)
  {
    match link.rel
    case First => offset > 0 && link.offset == 0
    case Prev => offset > 0 && link.offset == if offset > limit then offset - limit else 0
    case Next => link.offset == Add64(offset, limit) && link.offset < total
    case Last => link.offset > offset && IsLastPage(limit, total, link.offset)
  }

  lemma Multiple(q: int, limit: int)
    requires limit > 0
    ensures (q * limit) % limit == 0 && (q * limit) / limit == q
  {
    DivisionIsUnique(q * limit, limit, q, 0);
  }

  /** Quotient and remainder are unique. */
  lemma DivisionIsUnique(n: int, limit: int, q: int, r: int)
    requires limit > 0 && n == q * limit + r && 0 <= r < limit
    ensures n / limit == q && n % limit == r
  {
    var d := n / limit - q;
    assert d * limit == r - n % limit by {
      assert n == (n / limit) * limit + n % limit;
      assert d * limit == (n / limit) * limit - q * limit;
    }
    assert d >= 1 ==> d * limit >= limit;
    assert d <= -1 ==> d * limit <= -limit;
  }

  /** A non-empty list has one last page, at ((total - 1) / limit) * limit; an empty one has none. */
  lemma LastPageIs(limit: int, total: int, offset: int)
    requires limit > 0 && total >= 0
    ensures IsLastPage(limit, total, offset) <==> total > 0 && offset == Quotient(total - 1, limit) * limit
    ensures total == 0 ==> Quotient(total - 1, limit) * limit <= 0
  {
    if total > 0 {
      var q := (total - 1) / limit;
      assert total - 1 == q * limit + (total - 1) % limit;
      assert q >= 0;
      assert q * limit >= 0;
      Multiple(q, limit);
      if IsLastPage(limit, total, offset) {
        var p := offset / limit;
        assert offset == p * limit;
        DivisionIsUnique(total - 1, limit, p, total - 1 - offset);
      }
    } else {
      assert 1 / limit >= 0;
    }
  }

  /** Exactly the links that should be there, each once. */
  method BuildPaginationLinks(limit: int, offset: int, total: int) returns (links: seq<Link>)
    requires ValidRequest(limit, offset, total)
    ensures forall link :: link in links <==> ShouldLink(link, limit, offset, total)
    ensures forall i, j | 0 <= i < j < |links| :: links[i].rel != links[j].rel
    ensures forall o :: Link(First, o) in links <==> offset > 0 && o == 0
    ensures forall o :: Link(Prev, o) in links <==>
                        offset > 0 && o >= 0 && (o + limit == offset || (o == 0 && offset < limit))
    ensures forall o :: Link(Next, o) in links <==>
                        o < total && o == if offset + limit <= 0x7FFF_FFFF_FFFF_FFFF then offset + limit
                                          else offset + limit - 0x1_0000_0000_0000_0000
    ensures forall o :: Link(Last, o) in links <==> offset < o < total <= o + limit && o % limit == 0
  {
    links := [];
    if offset > 0 {
      links := links + [Link(First, 0)];
      var prevOffset := offset - limit;
      if prevOffset < 0 {
        prevOffset := 0;
      }
      links := links + [Link(Prev, prevOffset)];
    }
    if Add64(offset, limit) < total {
      var nextOffset := Add64(offset, limit);
      links := links + [Link(Next, nextOffset)];
    }
    var lastPageOffset := LastOffset(limit, total);
    if offset < lastPageOffset {
      links := links + [Link(Last, lastPageOffset)];
    }
    forall o ensures ShouldLink(Link(Last, o), limit, offset, total) <==> offset < o == lastPageOffset {
      LastPageIs(limit, total, o);
    }
  }

  // ---------------------------------------------------------------- following the links

  predicate HasNext(limit: int, offset: int, total: int)
    requires ValidRequest(limit, offset, total)
  {
    ShouldLink(Link(Next, Add64(offset, limit)), limit, offset, total)
  }

  function LastOffset(limit: int, total: int): int
    requires limit > 0
  {
    Quotient(total - 1, limit) * limit
  }

  /** By LastPageIs no other offset can be linked as the last. */
  predicate HasLast(limit: int, offset: int, total: int)
    requires ValidRequest(limit, offset, total)
  {
    ShouldLink(Link(Last, LastOffset(limit, total)), limit, offset, total)
  }

  /** The response carries a next link to an earlier offset. */
  predicate LeadsBack(limit: int, offset: int, total: int)
    requires ValidRequest(limit, offset, total)
  {
    HasNext(limit, offset, total) && Add64(offset, limit) < offset
  }

  /** A next link leads forward into the list as long as the addition does not overflow. When it does there is always
      a next link, and it carries a negative offset. */
  lemma NextLeadsBackIff(limit: int, offset: int, total: int)
    requires ValidRequest(limit, offset, total)
    ensures LeadsBack(limit, offset, total) <==> offset + limit > MAX_INT
    ensures LeadsBack(limit, offset, total) ==> Add64(offset, limit) < 0
    ensures HasNext(limit, offset, total) && !LeadsBack(limit, offset, total) ==> offset < Add64(offset, limit) < total
  {
  }

  /** The offsets a client visits that starts here and follows "next". A negative offset is refused. */
  function NextWalk(limit: int, offset: int, total: int): (walk: seq<int>)
    requires ValidRequest(limit, offset, total)
    ensures |walk| > 0 && forall i | 0 <= i < |walk| :: offset <= walk[i] <= MAX_INT
    decreases total - offset
  {
    if HasNext(limit, offset, total) && Add64(offset, limit) >= 0
    then [offset] + NextWalk(limit, Add64(offset, limit), total)
    else [offset]
  }

  /** LIMIT and OFFSET. */
  function Page<T>(items: seq<T>, limit: int, offset: int): seq<T>
    requires limit >= 0 && offset >= 0
  {
    if offset >= |items| then []
    else if offset + limit >= |items| then items[offset..]
    else items[offset..offset + limit]
  }

  function PagesOf<T>(items: seq<T>, limit: int, offsets: seq<int>): seq<T>
    requires limit >= 0 && forall i | 0 <= i < |offsets| :: offsets[i] >= 0
  {
    if offsets == [] then [] else Page(items, limit, offsets[0]) + PagesOf(items, limit, offsets[1..])
  }

  /** From any offset on, "next" shows the rest of the list, every item once and in order. */
  lemma {:induction false} WalkShowsTheRest<T>(items: seq<T>, limit: int, offset: int)
    requires ValidRequest(limit, offset, |items|)
    ensures PagesOf(items, limit, NextWalk(limit, offset, |items|))
            == if offset <= |items| then items[offset..] else []
    decreases |items| - offset
  {
    hide ShouldLink, Page;
    var walk := NextWalk(limit, offset, |items|);
    NextLeadsBackIff(limit, offset, |items|);
    if HasNext(limit, offset, |items|) && Add64(offset, limit) >= 0 {
      WalkShowsTheRest(items, limit, offset + limit);
      assert walk[1..] == NextWalk(limit, offset + limit, |items|);
      PageThenRest(items, limit, offset);
    } else {
      assert walk[1..] == [];
      LastShownPage(items, limit, offset);
    }
  }

  lemma LastShownPage<T>(items: seq<T>, limit: int, offset: int)
    requires ValidRequest(limit, offset, |items|) && !(HasNext(limit, offset, |items|) && Add64(offset, limit) >= 0)
    ensures Page(items, limit, offset) == if offset <= |items| then items[offset..] else []
  {
  }

  lemma PageThenRest<T>(items: seq<T>, limit: int, offset: int)
    requires limit >= 0 && offset >= 0 && offset + limit <= |items|
    ensures Page(items, limit, offset) + items[offset + limit..] == items[offset..]
  {
  }

  predicate MeetsLinkBack(limit: int, walk: seq<int>, total: int)
    requires forall i | 0 <= i < |walk| :: ValidRequest(limit, walk[i], total)
  {
    exists i | 0 <= i < |walk| :: LeadsBack(limit, walk[i], total)
  }

  lemma MeetsLinkBackAtFirstOrLater(limit: int, offset: int, rest: seq<int>, total: int)
    requires ValidRequest(limit, offset, total) && forall i | 0 <= i < |rest| :: ValidRequest(limit, rest[i], total)
    ensures MeetsLinkBack(limit, [offset] + rest, total)
            <==> LeadsBack(limit, offset, total) || MeetsLinkBack(limit, rest, total)
  {
    hide LeadsBack, ValidRequest;
    var walk := [offset] + rest;
    assert walk[0] == offset && forall i | 0 <= i < |rest| :: walk[i + 1] == rest[i];
    if LeadsBack(limit, offset, total) {
      assert LeadsBack(limit, walk[0], total);
    }
    if MeetsLinkBack(limit, rest, total) {
      var i :| 0 <= i < |rest| && LeadsBack(limit, rest[i], total);
      assert LeadsBack(limit, walk[i + 1], total);
    }
  }

  /** The walk meets a link that leads back exactly when it ends too close to the largest offset. */
  lemma {:induction false} WalkLeadsBackIff(limit: int, offset: int, total: int)
    requires ValidRequest(limit, offset, total)
    ensures var walk := NextWalk(limit, offset, total);
            MeetsLinkBack(limit, walk, total) <==> walk[|walk| - 1] + limit > MAX_INT
    decreases total - offset
  {
    NextLeadsBackIff(limit, offset, total);
    if HasNext(limit, offset, total) && Add64(offset, limit) >= 0 {
      WalkLeadsBackIff(limit, offset + limit, total);
      MeetsLinkBackAtFirstOrLater(limit, offset, NextWalk(limit, offset + limit, total), total);
    } else {
      MeetsLinkBackAtFirstOrLater(limit, offset, [], total);
    }
  }

  /** From the start, "next" shows the whole list, ends at the last page, and meets a link that leads back exactly when
      that page's offset plus the limit overflows. */
  lemma WalkFromStart<T>(items: seq<T>, limit: int)
    requires ValidRequest(limit, 0, |items|)
    ensures var walk := NextWalk(limit, 0, |items|);
            && PagesOf(items, limit, walk) == items
            && (|items| > 0 ==> walk[|walk| - 1] == LastOffset(limit, |items|))
            && (MeetsLinkBack(limit, walk, |items|) <==> LastOffset(limit, |items|) + limit > MAX_INT)
  {
    var walk := NextWalk(limit, 0, |items|);
    WalkShowsTheRest(items, limit, 0);
    WalkLeadsBackIff(limit, 0, |items|);
    if |items| > 0 {
      WalkEndsAtLastPage(limit, 0, |items|);
      LastPageIs(limit, |items|, walk[|walk| - 1]);
    } else {
      LastPageIs(limit, 0, 0);
    }
  }

  lemma {:induction false} WalkEndsAtLastPage(limit: int, page: nat, total: int)
    requires 0 <= page * limit < total && ValidRequest(limit, page * limit, total)
    ensures var walk := NextWalk(limit, page * limit, total); IsLastPage(limit, total, walk[|walk| - 1])
    decreases total - page * limit
  {
    if HasNext(limit, page * limit, total) && Add64(page * limit, limit) >= 0 {
      assert page * limit + limit == (page + 1) * limit;
      WalkEndsAtLastPage(limit, page + 1, total);
    } else {
      Multiple(page, limit);
    }
  }

  lemma {:induction false} MultiplesInOrder(q: int, p: int, limit: int)
    requires limit > 0 && q < p
    ensures (q + 1) * limit <= p * limit
    decreases p - q
  {
    if q + 1 < p {
      MultiplesInOrder(q, p - 1, limit);
      assert p * limit == (p - 1) * limit + limit;
    }
  }

  /** Comparing positions by page and then by place in the page. */
  lemma PagesCompare(q: int, r: int, p: int, s: int, limit: int)
    requires 0 <= r < limit && 0 <= s < limit
    ensures q * limit + r <= p * limit + s <==> q < p || (q == p && r <= s)
  {
    if q < p {
      MultiplesInOrder(q, p, limit);
      assert (q + 1) * limit == q * limit + limit;
    } else if p < q {
      MultiplesInOrder(p, q, limit);
      assert (p + 1) * limit == p * limit + limit;
    }
  }

  /** When "next" and "last" links come apart. A next link lacks its last link exactly when the addition overflows at
      or behind the last page; a last link lacks its next link exactly on the page before the last, when the offset
      lies further into its page than the last item into the last one. */
  lemma NextAndLastComeApartIff(limit: int, offset: int, total: int)
    requires ValidRequest(limit, offset, total)
    ensures HasNext(limit, offset, total) && !HasLast(limit, offset, total) <==>
            offset + limit > MAX_INT && offset >= LastOffset(limit, total)
    ensures HasLast(limit, offset, total) && !HasNext(limit, offset, total) <==>
            offset + limit <= MAX_INT && total > 0 &&
            offset / limit + 1 == (total - 1) / limit && offset % limit > (total - 1) % limit
  {
    LastPageIs(limit, total, LastOffset(limit, total));
    NextLeadsBackIff(limit, offset, total);
    if total > 0 {
      var q, p := offset / limit, (total - 1) / limit;
      var r, s := offset % limit, (total - 1) % limit;
      PageOrder(limit, offset, total, q, r, p, s);
    }
  }

  /** On aligned offsets "next" and "last" come together exactly as long as the addition does not overflow. */
  lemma AlignedNextIffLast(limit: int, offset: int, total: int)
    requires ValidRequest(limit, offset, total) && offset % limit == 0
    ensures (HasNext(limit, offset, total) <==> HasLast(limit, offset, total)) <==> offset + limit <= MAX_INT
  {
    NextAndLastComeApartIff(limit, offset, total);
    LastPageIs(limit, total, LastOffset(limit, total));
    var q, p := offset / limit, Quotient(total - 1, limit);
    assert offset == q * limit;
    hide Quotient, HasNext;
    MultiplesApart(q, p, limit);
  }

  lemma MultiplesApart(q: int, p: int, limit: int)
    requires limit > 0
    ensures q * limit < p * limit ==> q * limit + limit <= p * limit
  {
    assert (q + 1) * limit == q * limit + limit;
    if q < p {
      MultiplesInOrder(q, p, limit);
    } else if p < q {
      MultiplesInOrder(p, q, limit);
      assert (p + 1) * limit == p * limit + limit;
    }
  }

  /** At the largest offset an empty list has a next link, to a negative offset, and no last link; and the walk over
      the longest list meets such a link even from the start. */
  lemma OverflowingLinks()
    ensures HasNext(1, MAX_INT, 0) && Add64(MAX_INT, 1) == -0x8000_0000_0000_0000 && !HasLast(1, MAX_INT, 0)
    ensures MeetsLinkBack(100, NextWalk(100, 0, MAX_INT), MAX_INT)
  {
    NextAndLastComeApartIff(1, MAX_INT, 0);
    WalkFromStart(seq(MAX_INT, i => i), 100);
    assert LastOffset(100, MAX_INT) + 100 > MAX_INT;
  }

  /** Three items in pages of two, seen from the second item: the last page is linked and no next one. */
  lemma UnalignedLinks()
    ensures HasLast(2, 1, 3) && !HasNext(2, 1, 3)
  {
  }

  lemma PageOrder(limit: int, offset: int, total: int, q: int, r: int, p: int, s: int)
    requires offset == q * limit + r && total - 1 == p * limit + s && 0 <= r < limit && 0 <= s < limit
    ensures offset < p * limit <==> q < p
    ensures offset + limit < total <==> q + 1 < p || (q + 1 == p && r <= s)
  {
    PagesCompare(q + 1, r, p, s, limit);
    assert (q + 1) * limit == q * limit + limit;
    PagesCompare(p, 0, q, r, limit);
  }

  /** The offsets a client visits that follows "prev". */
  function PrevWalk(limit: int, offset: int): seq<int>
    requires limit >= 1 && offset >= 0
    decreases offset
  {
    if offset > 0 then [offset] + PrevWalk(limit, if offset > limit then offset - limit else 0) else [offset]
  }

  /** "prev" links lead back to the first page from any offset, through offsets that each carry the link. */
  lemma {:induction false} PrevReachesStart(limit: int, offset: int, total: int)
    requires ValidRequest(limit, offset, total)
    ensures var walk := PrevWalk(limit, offset);
            && walk[|walk| - 1] == 0 && (forall i | 0 <= i < |walk| :: 0 <= walk[i] <= offset)
            && forall i | 0 <= i < |walk| - 1 :: ShouldLink(Link(Prev, walk[i + 1]), limit, walk[i], total)
    decreases offset
  {
    if offset > 0 {
      PrevReachesStart(limit, if offset > limit then offset - limit else 0, total);
    }
  }
}
