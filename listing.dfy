/**
 The part of rendering both versions of the widget share: which items reach
 the list (`onFilter`), which of them matches the typed text, and which entry
 the list highlights once it is rebuilt.
 */
module Listing {
  import opened Wrappers
  import opened Text

  /**
   A character `'item' + id` can carry in a single CSS class token that a
   selector names without escaping: an ASCII letter, a digit, `-` or `_`.
   */
  predicate IdChar(c: char)
  {
    ('a' <= c <= 'z') || ('A' <= c <= 'Z') || ('0' <= c <= '9') || c == '-' || c == '_'
  }

  /**
   Item ids are non-empty strings of `IdChar`s, so that the selector
   `li.item<id>` picks exactly the entries whose id is `id`; the empty string
   stands for "no selection".
   */
  type ItemId = s: string | s != [] && forall i :: 0 <= i < |s| ==> IdChar(s[i]) witness "0"

  /** One selectable record of `items`. */
  datatype Item = Item(id: ItemId, name: string, descr: string)

  /**
   One rendered `<li>`: the button's `data-item-id`, `data-item-name` and
   `data-item-descr` attributes, and the markup inside its `span.item-name`.
   */
  datatype Entry = Entry(id: ItemId, itemName: string, descr: string, display: string)

  /** The items for which `keep` (the `onFilter` option) holds, in their order. */
  function Passing(items: seq<Item>, keep: Item -> bool): seq<Item>
  {
    if items == [] then []
    else
      var last := items[|items| - 1];
      Passing(items[..|items| - 1], keep) + (if keep(last) then [last] else [])
  }

  /** The positions in `items` of the items that pass `keep`. */
  function PassingIndices(items: seq<Item>, keep: Item -> bool): seq<nat>
  {
    if items == [] then []
    else
      var n := |items| - 1;
      PassingIndices(items[..n], keep) + (if keep(items[n]) then [n] else [])
  }

  /**
   `Passing` is the order-preserving filter: its j-th element is the item at
   the j-th passing position, those positions increase strictly, and a
   position is among them exactly when its item passes.
   */
  lemma {:induction false} PassingIsOrderedFilter(items: seq<Item>, keep: Item -> bool)
    ensures var p, idx := Passing(items, keep), PassingIndices(items, keep);
      && |idx| == |p|
      && (forall j :: 0 <= j < |idx| ==> idx[j] < |items| && p[j] == items[idx[j]])
      && (forall j, j' :: 0 <= j < j' < |idx| ==> idx[j] < idx[j'])
      && (forall k :: 0 <= k < |items| ==> (keep(items[k]) <==> k in idx))
  {
    if items != [] {
      var n := |items| - 1;
      var front := items[..n];
      PassingIsOrderedFilter(front, keep);
      var idx0 := PassingIndices(front, keep);
      assert forall j :: 0 <= j < |idx0| ==> idx0[j] < n;
      forall k | 0 <= k < n
        ensures keep(items[k]) <==> k in PassingIndices(items, keep)
      {
        assert items[k] == front[k];
      }
    }
  }

  /** An element is rendered exactly when it is one of the items and passes. */
  lemma {:induction false} PassingMembers(items: seq<Item>, keep: Item -> bool, x: Item)
    ensures x in Passing(items, keep) <==> x in items && keep(x)
  {
    if items != [] {
      var n := |items| - 1;
      PassingMembers(items[..n], keep, x);
      assert items == items[..n] + [items[n]];
    }
  }

  /** The ids of a list of items, in order. */
  function Ids(p: seq<Item>): seq<string>
  {
    seq(|p|, i requires 0 <= i < |p| => p[i].id)
  }

  /** The ids of the rendered entries, in document order. */
  function EntryIds(es: seq<Entry>): seq<string>
  {
    seq(|es|, i requires 0 <= i < |es| => es[i].id)
  }

  predicate DistinctIds(p: seq<Item>)
  {
    forall i, j :: 0 <= i < j < |p| ==> p[i].id != p[j].id
  }

  /**
   The first position of `x` in `s`, as `querySelector` finds the first
   element in document order.
   */
  function Find(s: seq<string>, x: string): (r: Option<nat>)
    ensures r.Some? ==> r.value < |s| && s[r.value] == x
    ensures r.Some? ==> forall j :: 0 <= j < r.value ==> s[j] != x
    ensures r.None? <==> x !in s
  {
    if s == [] then None
    else if s[0] == x then Some(0)
    else match Find(s[1..], x)
      case Some(i) => Some(i + 1)
      case None => None
  }

  /**
   The typed text matches a name: it has at least three characters and the
   lower-cased name contains it lower-cased.
   */
  predicate Matches(name: string, str: string)
  {
    |str| >= 3 && IndexOf(Lower(name), Lower(str)).Some?
  }

  lemma MatchesMeansContains(name: string, str: string)
    ensures Matches(name, str) <==> |str| >= 3 && exists q :: OccursAt(Lower(name), Lower(str), q)
  {
  }

  /** The position of the first rendered item whose name the typed text matches (`fid`). */
  function FirstMatch(p: seq<Item>, str: string): (r: Option<nat>)
    ensures r.Some? ==> r.value < |p| && Matches(p[r.value].name, str)
    ensures r.Some? ==> forall j :: 0 <= j < r.value ==> !Matches(p[j].name, str)
    ensures r.None? ==> forall j :: 0 <= j < |p| ==> !Matches(p[j].name, str)
  {
    if p == [] then None
    else
      var n := |p| - 1;
      match FirstMatch(p[..n], str)
      case Some(i) => Some(i)
      case None => if Matches(p[n].name, str) then Some(n) else None
  }

  /** The id of the first typed match (`fid`), "" when there is none. */
  function MatchId(p: seq<Item>, str: string): string
  {
    match FirstMatch(p, str)
    case Some(i) => p[i].id
    case None => ""
  }

  /** `sid`: the previous selection `hid`, or the first rendered id when there is none. */
  function Fallback(p: seq<Item>, hid: string): string
  {
    if hid != "" then hid else if p != [] then p[0].id else ""
  }

  /**
   The id `fid || sid` whose entry the rebuilt list highlights: the first
   typed match, else the previous selection `hid`, else the first rendered id.
   */
  function HighlightId(p: seq<Item>, str: string, hid: string): string
  {
    var fid := MatchId(p, str);
    if fid != "" then fid else Fallback(p, hid)
  }

  lemma {:induction false} PassingStep(items: seq<Item>, keep: Item -> bool, k: nat)
    requires k < |items|
    ensures Passing(items[..k + 1], keep) == Passing(items[..k], keep) + if keep(items[k]) then [items[k]] else []
  {
    assert items[..k + 1][..k] == items[..k];
  }

  lemma FirstMatchStep(p: seq<Item>, x: Item, str: string)
    ensures MatchId(p + [x], str) == if MatchId(p, str) != "" then MatchId(p, str) else if Matches(x.name, str) then x.id else ""
    ensures Fallback(p + [x], "") == if p != [] then p[0].id else x.id
  {
    var q := p + [x];
    assert q[..|q| - 1] == p;
    match FirstMatch(p, str)
    case Some(i) => assert q[i] == p[i];
    case None =>
  }

  /**
   Rebuilding the list does not dereference `null`: something is rendered,
   and unless the typed text matches, a previous selection is among it.
   */
  predicate CanRender(p: seq<Item>, str: string, hid: string)
  {
    p != [] && (FirstMatch(p, str).Some? || hid == "" || hid in Ids(p))
  }

  /** Which entry the rebuilt list highlights. */
  lemma HighlightRule(p: seq<Item>, str: string, hid: string)
    requires CanRender(p, str, hid)
    ensures var h := Find(Ids(p), HighlightId(p, str, hid));
      && h.Some? && h.value < |p|
      && (FirstMatch(p, str).Some? ==> p[h.value].id == p[FirstMatch(p, str).value].id)
      && (FirstMatch(p, str).Some? && DistinctIds(p) ==> h.value == FirstMatch(p, str).value)
      && (FirstMatch(p, str).None? && hid != "" ==> p[h.value].id == hid)
      && (FirstMatch(p, str).None? && hid == "" ==> h.value == 0)
  {
    var id := HighlightId(p, str, hid);
    var ids := Ids(p);
    match FirstMatch(p, str)
    case Some(i) =>
      assert ids[i] == id;
    case None =>
      if hid == "" {
        assert ids[0] == id;
      }
  }

  /**
   Entries carrying the passing items' ids, in order, contain the id
   `HighlightId` names, first at the position the rule picks among the items.
   */
  lemma HighlightAmongEntries(es: seq<Entry>, p: seq<Item>, str: string, hid: string)
    requires EntryIds(es) == Ids(p) && CanRender(p, str, hid)
    ensures var h := Find(EntryIds(es), HighlightId(p, str, hid));
      && h == Find(Ids(p), HighlightId(p, str, hid))
      && h.Some? && h.value < |es|
  {
    HighlightRule(p, str, hid);
  }

  /** Short typed text never matches, so the highlight falls back to the selection. */
  lemma ShortTextFallsBack(p: seq<Item>, str: string, hid: string)
    requires |str| < 3
    ensures FirstMatch(p, str).None?
    ensures HighlightId(p, str, hid) == if hid != "" then hid else if p != [] then p[0].id else ""
  {
  }
}
