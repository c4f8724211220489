/** Learned pages: lists of nodes fetched together, each node on at most one page. */
module CustomPages {
  import opened Sorting
  import opened Finite
  import opened GraphSearch

  /** `page` is what the first i ids contribute, and `seen` its elements. */
  ghost predicate Selected(ids: seq<nat>, i: nat, used: set<nat>, seen: set<nat>, page: seq<nat>) {
    && i <= |ids| && seen == Elements(page) && Distinct(page)
    && (forall id :: id in page ==> id in ids && id !in used)
    && Gather(ids, used).0 == page + Gather(ids[i..], used + seen).0
  }

  lemma SelectedNone(ids: seq<nat>, used: set<nat>)
    ensures Selected(ids, 0, used, {}, [])
  {
    assert ids[0..] == ids && used + {} == used;
  }

  lemma GatherNext(ids: seq<nat>, i: nat, seen: set<nat>)
    requires i < |ids|
    ensures Gather(ids[i..], seen).0 ==
      if ids[i] in seen then Gather(ids[i + 1..], seen).0 else [ids[i]] + Gather(ids[i + 1..], seen + {ids[i]}).0
  {
    assert ids[i..][1..] == ids[i + 1..];
  }

  lemma SelectedNext(ids: seq<nat>, i: nat, used: set<nat>, seen: set<nat>, page: seq<nat>)
    requires i < |ids| && Selected(ids, i, used, seen, page)
    ensures
      if ids[i] in used || ids[i] in seen then Selected(ids, i + 1, used, seen, page)
      else Selected(ids, i + 1, used, seen + {ids[i]}, page + [ids[i]])
  {
    GatherNext(ids, i, used + seen);
    hide Gather;
    if ids[i] !in used + seen {
      var rest := Gather(ids[i + 1..], used + seen + {ids[i]}).0;
      assert used + (seen + {ids[i]}) == used + seen + {ids[i]};
      assert page + ([ids[i]] + rest) == (page + [ids[i]]) + rest;
    }
  }

  /** A full page, or what all the ids contribute, is the wanted prefix. */
  lemma SelectedPage(ids: seq<nat>, i: nat, used: set<nat>, seen: set<nat>, page: seq<nat>)
    requires Selected(ids, i, used, seen, page)
    ensures page <= Gather(ids, used).0 && (i == |ids| ==> page == Gather(ids, used).0)
    ensures Distinct(page) && forall id :: id in page ==> id in ids && id !in used
  {
    assert i == |ids| ==> ids[i..] == [];
  }
  class PageLayout {
    const pageRecords: nat
    var pages: seq<seq<nat>>
    var nodeToPage: map<nat, nat>
    var pageCache: set<nat>

    /** The map and the pages agree, so pages are disjoint; no page repeats a node, is empty or overfull. */
    ghost predicate Valid()
      reads this
    {
      && (forall id :: id in nodeToPage ==> nodeToPage[id] < |pages| && id in pages[nodeToPage[id]])
      && (forall p, k :: 0 <= p < |pages| && 0 <= k < |pages[p]| ==> pages[p][k] in nodeToPage && nodeToPage[pages[p][k]] == p)
      && forall p :: 0 <= p < |pages| ==> Distinct(pages[p]) && 1 <= |pages[p]| <= Max(1, pageRecords)
    }

    constructor (pageRecords: nat)
      ensures Valid() && pages == [] && pageCache == {} && this.pageRecords == pageRecords
    {
      this.pageRecords := pageRecords;
      pages, nodeToPage, pageCache := [], map[], {};
    }

    /** `addCustomPage`: the first unassigned ids, in order, as many as fit, become a new page. */
    method AddCustomPage(ids: seq<nat>) returns (added: bool)
      requires Valid()
      modifies this`pages, this`nodeToPage
      ensures Valid() && (added <==> exists id :: id in ids && id !in old(nodeToPage))
      ensures
        var free := Gather(ids, old(nodeToPage.Keys)).0;
        pages == old(pages) + if added then [free[..Min(|free|, Max(1, pageRecords))]] else []
    {
      hide Gather;
      var page := SelectPage(ids);
      GatherAll(ids, nodeToPage.Keys);
      if |page| == 0 { return false; }
      assert page[0] in page;
      AppendPage(page);
      added := true;
    }

    method AppendPage(page: seq<nat>)
      requires Valid() && Distinct(page) && 1 <= |page| <= Max(1, pageRecords)
      requires forall id :: id in page ==> id !in nodeToPage
      modifies this`pages, this`nodeToPage
      ensures Valid() && pages == old(pages) + [page]
    {
      var pageId := |pages|;
      pages := pages + [page];
      ghost var before := nodeToPage;
      for i := 0 to |page|
        modifies this`nodeToPage
        invariant forall id :: id in nodeToPage <==> id in before || id in page[..i]
        invariant forall id :: id in nodeToPage ==> nodeToPage[id] == if id in before then before[id] else pageId
      {
        nodeToPage := nodeToPage[page[i] := pageId];
      }
      assert page[..|page|] == page;
      forall p, k | 0 <= p < |pages| && 0 <= k < |pages[p]|
        ensures pages[p][k] in nodeToPage && nodeToPage[pages[p][k]] == p
      {
        if p < pageId { assert old(pages)[p][k] in before; } else { assert page[k] in page; }
      }
    }

    method SelectPage(ids: seq<nat>) returns (page: seq<nat>)
      ensures
        var free := Gather(ids, nodeToPage.Keys).0;
        page == free[..Min(|free|, Max(1, pageRecords))]
      ensures Distinct(page) && |page| <= Max(1, pageRecords)
      ensures forall id :: id in page ==> id in ids && id !in nodeToPage
    {
      page := [];
      var seen: set<nat> := {};
      SelectedNone(ids, nodeToPage.Keys);
      hide Selected;
      for i := 0 to |ids|
        invariant |page| < Max(1, pageRecords)
        invariant Selected(ids, i, nodeToPage.Keys, seen, page)
      {
        var id := ids[i];
        SelectedNext(ids, i, nodeToPage.Keys, seen, page);
        if id in nodeToPage || id in seen { continue; }
        seen := seen + {id};
        page := page + [id];
        if |page| >= pageRecords {
          SelectedPage(ids, i + 1, nodeToPage.Keys, seen, page);
          return;
        }
      }
      SelectedPage(ids, |ids|, nodeToPage.Keys, seen, page);
    }

    lemma GatherAll(ids: seq<nat>, placed: set<nat>)
      ensures Gather(ids, placed).0 == [] <==> forall id :: id in ids ==> id in placed
    {
      var free := Gather(ids, placed).0;
      if free != [] { assert free[0] in ids && free[0] !in placed; }
    }
  }
}
