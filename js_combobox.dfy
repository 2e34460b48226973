/**
 The current version of the widget (src/js/ComboBox.js): arrow keys are
 handled on keydown, typing re-renders on keyup (or asks the remote endpoint
 for items), and the list is rebuilt by `update`.
 */
module JsComboBox {
  import opened Wrappers
  import opened Text
  import opened Listing
  import opened Navigation

  /**
   `name.replace(new RegExp(str, 'i'), '<strong>' + str + '</strong>')` once
   the match at `pos` is known: the matched characters give way to the typed
   text in bold.
   */
  function Bold(name: string, pos: nat, str: string): string
    requires pos + |str| <= |name|
  {
    name[..pos] + StrongOpen + str + StrongClose + name[pos + |str|..]
  }

  /** The markup of an entry's name for typed text `str`. */
  function Emphasize(name: string, str: string): string
  {
    if |str| >= 3 then
      match IndexOf(Lower(name), Lower(str))
      case Some(pos) => Bold(name, pos, str)
      case None => name
    else name
  }

  /** A name the text does not match (in particular for text shorter than 3) is shown as it is. */
  lemma EmphasizeUnmatched(name: string, str: string)
    requires !Matches(name, str)
    ensures Emphasize(name, str) == name
  {
  }

  /** On a match, the first case-insensitive occurrence is the one replaced by the bold typed text. */
  lemma EmphasizeFirstOccurrence(name: string, str: string, pos: nat)
    requires |str| >= 3
    requires OccursAt(Lower(name), Lower(str), pos)
    requires forall q :: OccursAt(Lower(name), Lower(str), q) ==> pos <= q
    ensures Emphasize(name, str) == name[..pos] + StrongOpen + str + StrongClose + name[pos + |str|..]
  {
  }

  /**
   Emphasis changes the shown text at most in letter case: stripped of its
   tags, the markup equals the name once both are lower-cased.
   */
  lemma EmphasizeKeepsText(name: string, str: string)
    requires TagFree(name) && TagFree(str)
    ensures Lower(TextContent(Emphasize(name, str))) == Lower(name)
  {
    if Matches(name, str) {
      var pos := IndexOf(Lower(name), Lower(str)).value;
      var a, b := name[..pos], name[pos + |str|..];
      TextContentStrong(a, str, b);
      LowerConcat(a, str);
      LowerConcat(a + str, b);
      LowerSlice(name, pos, pos + |str|);
      assert Lower(str) == Lower(name[pos..pos + |str|]);
      LowerConcat(a, name[pos..pos + |str|]);
      LowerConcat(a + name[pos..pos + |str|], b);
      assert a + name[pos..pos + |str|] + b == name;
    } else {
      TextContentOfTagFree(name);
    }
  }

  /** The `li` built for one item: the raw name in `data-item-name`, its markup in `span.item-name`. */
  function EntryOf(item: Item, str: string): Entry
  {
    Entry(item.id, item.name, item.descr, Emphasize(item.name, str))
  }

  /** The list `update` renders for the passing items `p`. */
  function Render(p: seq<Item>, str: string): seq<Entry>
  {
    seq(|p|, i requires 0 <= i < |p| => EntryOf(p[i], str))
  }

  /**
   The rendered entries correspond one to one, in order, to the passing items:
   same id, same raw name and description, and a markup whose text is the name.
   */
  lemma RenderedEntries(p: seq<Item>, str: string)
    ensures EntryIds(Render(p, str)) == Ids(p)
    ensures |Render(p, str)| == |p|
    ensures forall i :: 0 <= i < |p| ==>
      var e := Render(p, str)[i];
      e.id == p[i].id && e.itemName == p[i].name && e.descr == p[i].descr
    ensures forall i :: 0 <= i < |p| && TagFree(p[i].name) && TagFree(str) ==>
      Lower(TextContent(Render(p, str)[i].display)) == Lower(p[i].name)
  {
    forall i | 0 <= i < |p| && TagFree(p[i].name) && TagFree(str)
      ensures Lower(TextContent(Render(p, str)[i].display)) == Lower(p[i].name)
    {
      EmphasizeKeepsText(p[i].name, str);
    }
  }

  /**
   The loop of `update`: walks `items`, skips those `keep` rejects, builds one
   entry per remaining item and tracks `sid` (the previous selection or the
   first rendered id) and `fid` (the first matching id, "" while none).
   */
  method BuildList(items: seq<Item>, keep: Item -> bool, str: string, hid: string)
    returns (list: seq<Entry>, sid: string, fid: string)
    ensures list == Render(Passing(items, keep), str)
    ensures sid == Fallback(Passing(items, keep), hid)
    ensures fid == MatchId(Passing(items, keep), str)
    ensures (if fid != "" then fid else sid) == HighlightId(Passing(items, keep), str, hid)
  {
    list, sid, fid := [], hid, "";
    for k := 0 to |items|
      invariant list == Render(Passing(items[..k], keep), str)
      invariant sid == Fallback(Passing(items[..k], keep), hid)
      invariant fid == MatchId(Passing(items[..k], keep), str)
    {
      var item := items[k];
      PassingStep(items, keep, k);
      if !keep(item) {
        assert Passing(items[..k + 1], keep) == Passing(items[..k], keep);
        continue;
      }
      ghost var before := Passing(items[..k], keep);
      FirstMatchStep(before, item, str);
      RenderStep(before, item, str);
      if sid == "" {
        sid := item.id;
      }
      var rname := item.name;
      if |str| >= 3 {
        var pos := IndexOf(Lower(item.name), Lower(str));
        if pos.Some? {
          rname := Bold(item.name, pos.value, str);
          if fid == "" {
            fid := item.id;
          }
        }
      }
      list := list + [Entry(item.id, item.name, item.descr, rname)];
    }
    assert items[..|items|] == items;
  }

  lemma RenderStep(p: seq<Item>, x: Item, str: string)
    ensures Render(p + [x], str) == Render(p, str) + [EntryOf(x, str)]
  {
    assert forall i :: 0 <= i < |p| ==> (p + [x])[i] == p[i];
  }

  /** The div's `firstElementChild`: the list's `ul` once a list is rendered, null before. */
  function FirstChild(rendered: bool): Target
  {
    if rendered then ListBox else Nothing
  }

  /** The widget's state, with the DOM replaced by the fields it reads and writes. */
  class ComboBox {
    /** `this.items`: the candidate collection, replaced wholesale by a fetch. */
    var items: seq<Item>
    /** The `onFilter` option; an absent option is the predicate that keeps everything. */
    const onFilter: Item -> bool
    /** The `endpoint` option, "" when absent. */
    const endpoint: string
    /** Whether an `onSelect` callback is configured. */
    const hasOnSelect: bool

    /** The `li` entries currently in `div` (kept, though hidden, after the list closes). */
    var entries: seq<Entry>
    /** The position of the one `li.highlighted`, if any. */
    var highlighted: Option<nat>
    /** `div.style.display` is 'block' rather than 'none'. */
    var open: bool
    /** The hidden field: `hinput.value` and `hinput.dataset.itemName`. */
    var hid: string
    var hname: string
    /** `input.value`, the visible text the user edits. */
    var inputText: string
    /** `ul.scrollTop`. */
    var scrollTop: int
    /** `this.controller`: the URL of the last request issued, if any. */
    var controller: Option<string>
    /** The URLs of the requests aborted so far, in order. */
    var aborted: seq<string>
    /** The entries passed to `onSelect`, in order. */
    var selections: seq<Entry>

    /** At most one entry is highlighted, and one is as soon as any is rendered. */
    ghost predicate Valid()
      reads this
    {
      (highlighted.None? <==> entries == []) &&
      (highlighted.Some? ==> highlighted.value < |entries|)
    }

    /** `update` can rebuild the list without dereferencing `null`. */
    ghost predicate CanUpdate()
      reads this
    {
      items != [] ==> CanRender(Passing(items, onFilter), inputText, hid)
    }

    /** The list is shown as `update` builds it from the current fields. */
    ghost predicate Shows(geo: Geometry)
      reads this
    {
      var p := Passing(items, onFilter);
      && open
      && entries == Render(p, inputText)
      && highlighted == Find(Ids(p), HighlightId(p, inputText, hid))
      && highlighted.Some?
      && scrollTop == geo.offsetTop(highlighted.value)
    }

    constructor (items: seq<Item>, onFilter: Item -> bool, endpoint: string, hasOnSelect: bool, text: string)
      ensures Valid()
      ensures this.items == items && this.onFilter == onFilter && this.endpoint == endpoint
      ensures this.hasOnSelect == hasOnSelect && inputText == text
      ensures entries == [] && highlighted == None && !open
      ensures hid == "" && hname == "" && scrollTop == 0
      ensures controller == None && aborted == [] && selections == []
    {
      this.items := items;
      this.onFilter := onFilter;
      this.endpoint := endpoint;
      this.hasOnSelect := hasOnSelect;
      entries := [];
      highlighted := None;
      open := false;
      hid, hname := "", "";
      inputText := text;
      scrollTop := 0;
      controller := None;
      aborted := [];
      selections := [];
    }

    /**
     `update`: with no items nothing happens; otherwise the list is rebuilt
     from the passing items, shown, the chosen entry highlighted and scrolled
     to the top of the list.
     */
    method Update(geo: Geometry)
      requires Valid() && CanUpdate()
      modifies this
      ensures Valid()
      ensures old(items) == [] ==> unchanged(this)
      ensures old(items) != [] ==> Shows(geo)
      ensures unchanged(this`items, this`hid, this`hname, this`inputText)
      ensures unchanged(this`controller, this`aborted, this`selections)
    {
      if items != [] {
        Rebuild(geo);
      }
    }

    /** The body of `update` past its guard on empty `items`. */
    method Rebuild(geo: Geometry)
      requires items != [] && CanRender(Passing(items, onFilter), inputText, hid)
      modifies this`entries, this`open, this`highlighted, this`scrollTop
      ensures Valid() && Shows(geo)
    {
      ghost var p := Passing(items, onFilter);
      var list, sid, fid := BuildList(items, onFilter, inputText, hid);
      var current := if fid != "" then fid else sid;
      RenderedEntries(p, inputText);
      HighlightAmongEntries(list, p, inputText, hid);
      var h := Find(EntryIds(list), current);
      entries, open := list, true;
      highlighted := h;
      scrollTop := geo.offsetTop(h.value);
    }

    /** `highlight`: the highlight moves from the current entry to entry `i`. */
    method Highlight(i: nat)
      requires Valid() && highlighted.Some? && i < |entries|
      modifies this`highlighted
      ensures Valid()
      ensures highlighted == Some(i)
    {
      highlighted := Some(i);
    }

    /** `select`: the hidden field and the text take entry `i`'s id and raw name; `onSelect` sees it once. */
    method Select(i: nat)
      requires Valid() && i < |entries|
      modifies this`hid, this`hname, this`inputText, this`selections
      ensures Valid()
      ensures hid == entries[i].id && hname == entries[i].itemName && inputText == entries[i].itemName
      ensures selections == old(selections) + if hasOnSelect then [entries[i]] else []
    {
      hid := entries[i].id;
      hname := entries[i].itemName;
      inputText := hname;
      if hasOnSelect {
        selections := selections + [entries[i]];
      }
    }

    /** `onFocus`: a closed list is rebuilt. */
    method OnFocus(geo: Geometry)
      requires Valid() && (!open ==> CanUpdate())
      modifies this
      ensures Valid()
      ensures old(open) || old(items) == [] ==> unchanged(this)
      ensures !old(open) && old(items) != [] ==> Shows(geo)
      ensures unchanged(this`items, this`hid, this`hname, this`inputText)
      ensures unchanged(this`controller, this`aborted, this`selections)
    {
      if !open {
        Update(geo);
      }
    }

    /**
     `onClick`: the list closes and the text returns to the selected name;
     then a click on an entry's button (or a span inside it) highlights and
     selects that entry.
     */
    method OnClick(t: Target)
      requires Valid() && InList(t, |entries|)
      modifies this
      ensures Valid() && !open
      ensures unchanged(this`items, this`entries, this`scrollTop, this`controller, this`aborted)
      ensures ClickedEntry(t).Some? ==>
        var e := entries[ClickedEntry(t).value];
        && highlighted == ClickedEntry(t)
        && hid == e.id && hname == e.itemName && inputText == e.itemName
        && selections == old(selections) + if hasOnSelect then [e] else []
      ensures ClickedEntry(t).None? ==>
        inputText == old(hname) && unchanged(this`highlighted, this`hid, this`hname, this`selections)
    {
      open := false;
      inputText := hname;
      match ClickedEntry(t)
      case Some(i) =>
        Highlight(i);
        Select(i);
      case None =>
    }

    /**
     The blurs `onBlur` ignores: focus moving to the div's first child (the
     list's `ul` once `update` has rendered one, null while the div is still
     empty) or back to the field.
     */
    ghost predicate BlurIgnored(t: Target)
      reads this
    {
      t == FirstChild(entries != []) || t == TextField
    }

    /** `onBlur`: an ignored blur changes nothing; any other blur is a click on its target. */
    method OnBlur(t: Target)
      requires Valid() && InList(t, |entries|)
      modifies this
      ensures Valid()
      ensures old(BlurIgnored(t)) ==> unchanged(this)
      ensures !old(BlurIgnored(t)) ==> !open
      ensures unchanged(this`items, this`entries, this`scrollTop, this`controller, this`aborted)
      ensures !old(BlurIgnored(t)) && ClickedEntry(t).Some? ==>
        var e := entries[ClickedEntry(t).value];
        && highlighted == ClickedEntry(t)
        && hid == e.id && hname == e.itemName && inputText == e.itemName
        && selections == old(selections) + if hasOnSelect then [e] else []
      ensures !old(BlurIgnored(t)) && ClickedEntry(t).None? ==>
        inputText == old(hname) && unchanged(this`highlighted, this`hid, this`hname, this`selections)
    {
      if t == FirstChild(entries != []) {
        return;
      }
      if t != TextField {
        OnClick(t);
      }
    }

    /**
     `onKeyDown`: nothing without a highlighted entry; Enter selects it and
     blurs the field, Escape only blurs (the blur closes the list and restores
     the text); an arrow moves the highlight to an adjacent entry if there is
     one and scrolls it into view; other keys do nothing.
     */
    method OnKeyDown(key: string, geo: Geometry)
      requires Valid()
      modifies this
      ensures Valid()
      ensures old(highlighted).None? ==> unchanged(this)
      ensures unchanged(this`items, this`entries, this`controller, this`aborted)
      ensures old(highlighted).Some? && StandardizeKey(key) == "Enter" ==>
        var e := entries[old(highlighted).value];
        && !open && highlighted == old(highlighted) && scrollTop == old(scrollTop)
        && hid == e.id && hname == e.itemName && inputText == e.itemName
        && selections == old(selections) + if hasOnSelect then [e] else []
      ensures old(highlighted).Some? && StandardizeKey(key) == "Escape" ==>
        && !open && inputText == old(hname)
        && unchanged(this`highlighted, this`scrollTop, this`hid, this`hname, this`selections)
      ensures old(highlighted).Some? && IsArrow(StandardizeKey(key)) ==>
        var s := Sibling(old(highlighted).value, |old(entries)|, StandardizeKey(key) == "ArrowDown");
        && highlighted == (if s.Some? then s else old(highlighted))
        && scrollTop == (if s.Some? then
             ScrollIntoView(old(scrollTop), geo.viewHeight, geo.offsetTop(s.value), geo.offsetHeight(s.value))
           else old(scrollTop))
        && unchanged(this`open, this`hid, this`hname, this`inputText, this`selections)
      ensures old(highlighted).Some? && !IsCommandKey(StandardizeKey(key)) ==> unchanged(this)
    {
      var k := StandardizeKey(key);
      if highlighted.None? {
        return;
      }
      var current := highlighted.value;
      if k == "Enter" || k == "Escape" {
        if k == "Enter" {
          Select(current);
        }
        // `input.blur()` fires a blur event whose `relatedTarget` is null.
        OnBlur(Nothing);
      } else if k == "ArrowDown" || k == "ArrowUp" {
        var next := Sibling(current, |entries|, k == "ArrowDown");
        if next.Some? {
          Highlight(next.value);
          var top, height := geo.offsetTop(next.value), geo.offsetHeight(next.value);
          if top + height > scrollTop + geo.viewHeight {
            scrollTop := top - (geo.viewHeight - height);
          } else if top < scrollTop {
            scrollTop := top;
          }
        }
      }
    }

    /**
     `onKeyUp`: keys handled on keydown are ignored. With an endpoint, text of
     three or more characters aborts the previous request and issues one for
     `endpoint + text` (returned); shorter text does nothing. Without an
     endpoint, the list is rebuilt.
     */
    method OnKeyUp(key: string, geo: Geometry) returns (request: Option<string>)
      requires Valid()
      requires endpoint == "" && !IsCommandKey(StandardizeKey(key)) ==> CanUpdate()
      modifies this
      ensures Valid()
      ensures IsCommandKey(StandardizeKey(key)) ==> request == None && unchanged(this)
      ensures !IsCommandKey(StandardizeKey(key)) && endpoint != "" ==>
        && request == (if |old(inputText)| >= 3 then Some(endpoint + old(inputText)) else None)
        && (request.None? ==> unchanged(this))
        && (request.Some? ==>
             && controller == request
             && aborted == old(aborted) + (if old(controller).Some? then [old(controller).value] else [])
             && unchanged(this`items, this`entries, this`highlighted, this`open, this`scrollTop)
             && unchanged(this`hid, this`hname, this`inputText, this`selections))
      ensures !IsCommandKey(StandardizeKey(key)) && endpoint == "" ==>
        && request == None
        && (old(items) == [] ==> unchanged(this))
        && (old(items) != [] ==> Shows(geo))
        && unchanged(this`items, this`hid, this`hname, this`inputText)
        && unchanged(this`controller, this`aborted, this`selections)
    {
      request := None;
      var k := StandardizeKey(key);
      if IsCommandKey(k) {
        return;
      }
      if endpoint != "" {
        if |inputText| >= 3 {
          if controller.Some? {
            aborted := aborted + [controller.value];
          }
          controller := Some(endpoint + inputText);
          request := controller;
        }
      } else {
        Update(geo);
      }
    }

    /** `ul.onmousemove`: the entry under the pointer becomes the highlighted one. */
    method OnPointerMove(t: Target)
      requires Valid() && InList(t, |entries|)
      modifies this
      ensures Valid()
      ensures highlighted == if ClosestRow(t).Some? then ClosestRow(t) else old(highlighted)
      ensures unchanged(this`items, this`entries, this`open, this`scrollTop, this`hid, this`hname)
      ensures unchanged(this`inputText, this`controller, this`aborted, this`selections)
    {
      var row := ClosestRow(t);
      if row.Some? && highlighted != row {
        Highlight(row.value);
      }
    }
  }

  /** The entry a click on `t` selects: its button, or a span directly inside the button. */
  function ClickedEntry(t: Target): (r: Option<nat>)
    ensures r.Some? <==> t.Button? || t.ButtonSpan?
    ensures r.Some? ==> r.value == t.i
  {
    match t
    case Button(i) => Some(i)
    case ButtonSpan(i) => Some(i)
    case _ => None
  }

  /**
   The steps of `onClick` after the restore: no element ends it; an element
   whose parent is a button stands for that button; a button selects its entry.
   */
  function ClickDispatch(t: Target): Option<nat>
  {
    if t == Nothing then None
    else
      var el := if IsButton(Parent(t)) then Parent(t) else t;
      if IsButton(el) then Some(el.i) else None
  }

  /** Reading the clicked entry off the target is what the parent step and the button test compute. */
  lemma ClickedEntryTakesParentStep(t: Target)
    ensures ClickedEntry(t) == ClickDispatch(t)
  {
    match t
    case ButtonSpan(i) =>
      assert IsButton(Parent(t));
    case Nested(i) =>
      assert Parent(t) == ButtonSpan(i) && !IsButton(Parent(t));
    case _ =>
  }
}
