/**
 The older version of the widget (src/ComboBox.js): one `onKey` handler for
 keydown and keyup, Enter and Escape on keydown, arrows on keyup, and the list
 rebuilt by `open(str)`.
 */
module LegacyComboBox {
  import opened Wrappers
  import opened Text
  import opened Listing
  import opened Navigation

  /**
   The markup src/ComboBox.js:103 builds for a match at `pos` of typed text of
   length `len`: the bold part is `name.substring(pos, len)`, which ends at
   the typed length rather than `len` characters after `pos`.
   */
  function SpliceAsWritten(name: string, pos: nat, len: nat): string
  {
    JsSubstring(name, 0, pos) + StrongOpen + JsSubstring(name, pos, len) + StrongClose
      + JsSubstring(name, pos + len, |name|)
  }

  /** The emphasis as written: the splice above at the first case-insensitive occurrence. */
  function EmphasizeAsWritten(name: string, str: string): string
  {
    if |str| >= 3 then
      match IndexOf(Lower(name), Lower(str))
      case Some(pos) => SpliceAsWritten(name, pos, |str|)
      case None => name
    else name
  }

  /** The evidently intended markup: the `len` characters at `pos` go in bold. */
  function Splice(name: string, pos: nat, len: nat): string
    requires pos + len <= |name|
  {
    name[..pos] + StrongOpen + name[pos..pos + len] + StrongClose + name[pos + len..]
  }

  /**
   The evidently intended emphasis: the characters of the name that matched
   go in bold, so the markup keeps every character of the name.
   */
  function Emphasize(name: string, str: string): string
  {
    if |str| >= 3 then
      match IndexOf(Lower(name), Lower(str))
      case Some(pos) => Splice(name, pos, |str|)
      case None => name
    else name
  }

  /** At the start of the name the splice as written is the intended one. */
  lemma SpliceAgreesAtStart(name: string, len: nat)
    requires len <= |name|
    ensures SpliceAsWritten(name, 0, len) == Splice(name, 0, len)
  {
    assert JsSubstring(name, 0, 0) == [] == name[..0];
    assert JsSubstring(name, 0, len) == name[0..len];
    assert JsSubstring(name, len, |name|) == name[len..];
  }

  /** Stripped of its tags, the intended splice is the name itself. */
  lemma SpliceKeepsName(name: string, pos: nat, len: nat)
    requires TagFree(name) && pos + len <= |name|
    ensures TextContent(Splice(name, pos, len)) == name
  {
    var a, b, c := name[..pos], name[pos..pos + len], name[pos + len..];
    TextContentStrong(a, b, c);
    assert a + b + c == name;
  }

  /** Stripped of its tags, the intended markup is the name itself. */
  lemma EmphasizeKeepsName(name: string, str: string)
    requires TagFree(name)
    ensures TextContent(Emphasize(name, str)) == name
  {
    if Matches(name, str) {
      var pos := IndexOf(Lower(name), Lower(str)).value;
      SpliceKeepsName(name, pos, |str|);
    } else {
      TextContentOfTagFree(name);
    }
  }

  /** A name the text does not match is shown as it is. */
  lemma EmphasizeUnmatched(name: string, str: string)
    requires !Matches(name, str)
    ensures EmphasizeAsWritten(name, str) == name
  {
  }

  /** The text does not match the name, or matches it at its start. */
  predicate NoLaterMatch(name: string, str: string)
  {
    !Matches(name, str) || IndexOf(Lower(name), Lower(str)) == Some(0)
  }

  /**
   Where the text does not match or matches at the start of the name, the
   emphasis as written is the intended one, and keeps the name's text.
   */
  lemma AsWrittenAtStart(name: string, str: string)
    requires NoLaterMatch(name, str)
    ensures EmphasizeAsWritten(name, str) == Emphasize(name, str)
    ensures TagFree(name) ==> TextContent(EmphasizeAsWritten(name, str)) == name
  {
    if Matches(name, str) {
      SpliceAgreesAtStart(name, |str|);
    }
    if TagFree(name) {
      EmphasizeKeepsName(name, str);
    }
  }

  /**
   What the splice as written leaves as text: the name before the match,
   then `substring(pos, |str|)` in place of the match, then the name after it.
   */
  lemma AsWrittenText(name: string, str: string)
    requires TagFree(name) && Matches(name, str)
    ensures var pos := IndexOf(Lower(name), Lower(str)).value;
      && pos + |str| <= |name|
      && TextContent(EmphasizeAsWritten(name, str)) == name[..pos] + JsSubstring(name, pos, |str|) + name[pos + |str|..]
  {
    var pos := IndexOf(Lower(name), Lower(str)).value;
    assert JsSubstring(name, 0, pos) == name[..pos];
    assert JsSubstring(name, pos + |str|, |name|) == name[pos + |str|..];
    var m := JsSubstring(name, pos, |str|);
    assert TagFree(m);
    TextContentStrong(name[..pos], m, name[pos + |str|..]);
  }

  /**
   A match starting past the first character but within the typed length
   loses as many characters of the name as it starts from the beginning, so
   what `select` later stores is not the name.
   */
  lemma AsWrittenLosesText(name: string, str: string)
    requires TagFree(name) && Matches(name, str)
    requires 0 < IndexOf(Lower(name), Lower(str)).value <= |str|
    ensures |TextContent(EmphasizeAsWritten(name, str))| == |name| - IndexOf(Lower(name), Lower(str)).value
    ensures TextContent(EmphasizeAsWritten(name, str)) != name
  {
    AsWrittenText(name, str);
  }

  /**
   The splice as written loses characters for a match past the start: typing
   "uri" shows "Turin" as `T<strong>ur</strong>n`, whose text is "Turn".
   */
  lemma AsWrittenDropsText()
    ensures EmphasizeAsWritten("Turin", "uri") == "T" + StrongOpen + "ur" + StrongClose + "n"
    ensures TextContent(EmphasizeAsWritten("Turin", "uri")) == "Turn"
  {
    assert Lower("Turin") == "turin";
    assert Lower("uri") == "uri";
    assert OccursAt("turin", "uri", 1);
    assert "turin"[0..3][0] == 't';
    assert !OccursAt("turin", "uri", 0);
    assert IndexOf("turin", "uri") == Some(1);
    assert JsSubstring("Turin", 0, 1) == "T";
    assert JsSubstring("Turin", 1, 3) == "ur";
    assert JsSubstring("Turin", 4, 5) == "n";
    TextContentStrong("T", "ur", "n");
  }

  /**
   The `li` built for one item, with the splice as written. This version
   reassigns `name` to its markup before writing the button, so
   `data-item-name` holds the markup too.
   */
  function EntryOf(item: Item, str: string): Entry
  {
    var shown := EmphasizeAsWritten(item.name, str);
    Entry(item.id, shown, item.descr, shown)
  }

  /** The list `open(str)` renders for the passing items `p`. */
  function Render(p: seq<Item>, str: string): seq<Entry>
  {
    seq(|p|, i requires 0 <= i < |p| => EntryOf(p[i], str))
  }

  /**
   The rendered entries correspond one to one, in order, to the passing items,
   each showing the item's name with the emphasis as written. The text of that
   markup is the name when the text does not match it or matches at its start.
   */
  lemma RenderedEntries(p: seq<Item>, str: string)
    ensures EntryIds(Render(p, str)) == Ids(p)
    ensures |Render(p, str)| == |p|
    ensures forall i :: 0 <= i < |p| ==> Render(p, str)[i].id == p[i].id && Render(p, str)[i].descr == p[i].descr
    ensures forall i :: 0 <= i < |p| ==>
      Render(p, str)[i].display == Render(p, str)[i].itemName == EmphasizeAsWritten(p[i].name, str)
    ensures forall i :: 0 <= i < |p| && TagFree(p[i].name) && NoLaterMatch(p[i].name, str) ==>
      TextContent(Render(p, str)[i].display) == p[i].name
  {
    forall i | 0 <= i < |p| && TagFree(p[i].name) && NoLaterMatch(p[i].name, str)
      ensures TextContent(Render(p, str)[i].display) == p[i].name
    {
      AsWrittenAtStart(p[i].name, str);
    }
  }

  lemma RenderStep(p: seq<Item>, x: Item, str: string)
    ensures Render(p + [x], str) == Render(p, str) + [EntryOf(x, str)]
  {
    assert forall i :: 0 <= i < |p| ==> (p + [x])[i] == p[i];
  }

  /**
   The loop of `open(str)`: one entry per item that `keep` accepts, with
   `sid` (the previous selection or the first rendered id) and `fid` (the
   first matching id, "" while none).
   */
  method BuildList(items: seq<Item>, keep: Item -> bool, str: string, hid: string)
    returns (list: seq<Entry>, sid: string, fid: string)
    ensures list == Render(Passing(items, keep), str)
    ensures sid == Fallback(Passing(items, keep), hid)
    ensures fid == MatchId(Passing(items, keep), str)
    ensures (if fid != "" then fid else sid) == HighlightId(Passing(items, keep), str, hid)
  {
    list, sid, fid := [], hid, "";
    for k := 0 to |items|
      invariant list == Render(Passing(items[..k], keep), str)
      invariant sid == Fallback(Passing(items[..k], keep), hid)
      invariant fid == MatchId(Passing(items[..k], keep), str)
    {
      var item := items[k];
      PassingStep(items, keep, k);
      if !keep(item) {
        assert Passing(items[..k + 1], keep) == Passing(items[..k], keep);
        continue;
      }
      ghost var before := Passing(items[..k], keep);
      FirstMatchStep(before, item, str);
      RenderStep(before, item, str);
      if sid == "" {
        sid := item.id;
      }
      var name := item.name;
      if |str| >= 3 {
        var pos := IndexOf(Lower(item.name), Lower(str));
        if pos.Some? {
          name := SpliceAsWritten(item.name, pos.value, |str|);
          if fid == "" {
            fid := item.id;
          }
        }
      }
      list := list + [Entry(item.id, name, item.descr, name)];
    }
    assert items[..|items|] == items;
  }

  datatype KeyPhase = KeyDown | KeyUp

  /** The widget's state, with the DOM replaced by the fields it reads and writes. */
  class ComboBox {
    /** `this.items`: the candidate collection. */
    var items: seq<Item>
    /** The `onFilter` option; an absent option is the predicate that keeps everything. */
    const onFilter: Item -> bool
    /** The `endpoint` option, "" when absent. */
    const endpoint: string
    /** Whether an `onSelect` callback is configured. */
    const hasOnSelect: bool

    /** The `li` entries currently in `div`. */
    var entries: seq<Entry>
    /** The position of the one `li.highlighted`, if any. */
    var highlighted: Option<nat>
    /** `div.style.display` is 'block' rather than 'none'. */
    var open: bool
    /** The hidden field: `hinput.value` and `hinput.dataset.itemName`. */
    var hid: string
    var hname: string
    /** `input.value`. */
    var inputText: string
    /** `ul.scrollTop`. */
    var scrollTop: int
    /** The entries passed to `onSelect`, in order. */
    var selections: seq<Entry>

    /** At most one entry is highlighted, and one is as soon as any is rendered. */
    ghost predicate Valid()
      reads this
    {
      (highlighted.None? <==> entries == []) &&
      (highlighted.Some? ==> highlighted.value < |entries|)
    }

    /** `open(str)` can rebuild the list without dereferencing `null`. */
    ghost predicate CanOpen(str: string)
      reads this
    {
      CanRender(Passing(items, onFilter), str, hid)
    }

    /** The list is shown as `open(str)` builds it from the current fields. */
    ghost predicate Shows(str: string, geo: Geometry)
      reads this
    {
      var p := Passing(items, onFilter);
      && open
      && entries == Render(p, str)
      && highlighted == Find(Ids(p), HighlightId(p, str, hid))
      && highlighted.Some?
      && scrollTop == geo.offsetTop(highlighted.value)
    }

    constructor (items: seq<Item>, onFilter: Item -> bool, endpoint: string, hasOnSelect: bool, text: string)
      ensures Valid()
      ensures this.items == items && this.onFilter == onFilter && this.endpoint == endpoint
      ensures this.hasOnSelect == hasOnSelect && inputText == text
      ensures entries == [] && highlighted == None && !open
      ensures hid == "" && hname == "" && scrollTop == 0 && selections == []
    {
      this.items := items;
      this.onFilter := onFilter;
      this.endpoint := endpoint;
      this.hasOnSelect := hasOnSelect;
      entries := [];
      highlighted := None;
      open := false;
      hid, hname := "", "";
      inputText := text;
      scrollTop := 0;
      selections := [];
    }

    /**
     `open(str)`: the list is rebuilt from the passing items for typed text
     `str`, shown, the chosen entry highlighted and scrolled to the top.
     */
    method Open(str: string, geo: Geometry)
      requires CanOpen(str)
      modifies this`entries, this`open, this`highlighted, this`scrollTop
      ensures Valid() && Shows(str, geo)
    {
      ghost var p := Passing(items, onFilter);
      var list, sid, fid := BuildList(items, onFilter, str, hid);
      var current := if fid != "" then fid else sid;
      RenderedEntries(p, str);
      HighlightAmongEntries(list, p, str, hid);
      var h := Find(EntryIds(list), current);
      entries, open := list, true;
      highlighted := h;
      scrollTop := geo.offsetTop(h.value);
    }

    /** `highlight`: the highlight moves from the current entry to entry `i`. */
    method Highlight(i: nat)
      requires Valid() && highlighted.Some? && i < |entries|
      modifies this`highlighted
      ensures Valid()
      ensures highlighted == Some(i)
    {
      highlighted := Some(i);
    }

    /**
     `select`: the hidden field takes entry `i`'s id, the hidden name and the
     text take the text content of its name markup; `onSelect` sees it once.
     */
    method Select(i: nat)
      requires Valid() && i < |entries|
      modifies this`hid, this`hname, this`inputText, this`selections
      ensures Valid()
      ensures hid == entries[i].id
      ensures hname == TextContent(entries[i].display) && inputText == hname
      ensures selections == old(selections) + if hasOnSelect then [entries[i]] else []
    {
      var txt := TextContent(entries[i].display);
      hid := entries[i].id;
      hname := txt;
      inputText := txt;
      if hasOnSelect {
        selections := selections + [entries[i]];
      }
    }

    /** `onFocus`: the list opens only when there are items. */
    method OnFocus(geo: Geometry)
      requires Valid() && (items != [] ==> CanOpen(""))
      modifies this
      ensures Valid()
      ensures old(items) == [] ==> unchanged(this)
      ensures old(items) != [] ==> Shows("", geo)
      ensures unchanged(this`items, this`hid, this`hname, this`inputText, this`selections)
    {
      if |items| > 0 {
        Open("", geo);
      }
    }

    /**
     `onBlur`: focus moving anywhere but the text field closes the list; a
     blur to an entry's button highlights and selects that entry; the text
     ends equal to the selected name in every such case.
     */
    method OnBlur(t: Target)
      requires Valid() && InList(t, |entries|)
      modifies this
      ensures Valid()
      ensures t == TextField ==> unchanged(this)
      ensures t != TextField ==> !open && inputText == hname
      ensures unchanged(this`items, this`entries, this`scrollTop)
      ensures t.Button? ==>
        && highlighted == Some(t.i) && hid == entries[t.i].id
        && hname == TextContent(entries[t.i].display)
        && selections == old(selections) + if hasOnSelect then [entries[t.i]] else []
      ensures !t.Button? ==> unchanged(this`highlighted, this`hid, this`hname, this`selections)
    {
      if t != TextField {
        open := false;
        if t.Button? {
          Highlight(t.i);
          Select(t.i);
        }
        inputText := hname;
      }
    }

    /** What `processKeyboardEvents` does to the state for a key in a phase. */
    twostate predicate KeyHandled(phase: KeyPhase, key: string, geo: Geometry)
      reads this
    {
      var k := StandardizeKey(key);
      && items == old(items) && entries == old(entries)
      && (phase == KeyDown && k == "Enter" && old(highlighted).Some? && old(highlighted).value < |old(entries)| ==>
           var e := old(entries)[old(highlighted).value];
           && !open && highlighted == old(highlighted) && scrollTop == old(scrollTop)
           && hid == e.id && hname == TextContent(e.display) && inputText == hname
           && selections == old(selections) + if hasOnSelect then [e] else [])
      && (phase == KeyDown && k == "Escape" ==>
           && !open && inputText == old(hname) && highlighted == old(highlighted) && scrollTop == old(scrollTop)
           && hid == old(hid) && hname == old(hname) && selections == old(selections))
      && ((phase == KeyDown && k != "Enter" && k != "Escape") || (phase == KeyUp && !IsArrow(k)) ==>
           && open == old(open) && highlighted == old(highlighted) && scrollTop == old(scrollTop)
           && hid == old(hid) && hname == old(hname) && inputText == old(inputText) && selections == old(selections))
      && (phase == KeyUp && IsArrow(k) && old(highlighted).Some? && old(highlighted).value < |old(entries)| ==>
           var s := Sibling(old(highlighted).value, |old(entries)|, k == "ArrowDown");
           && highlighted == (if s.Some? then s else old(highlighted))
           && scrollTop == (if s.None? then old(scrollTop)
                else if k == "ArrowDown" then
                  ScrollDown(old(scrollTop), geo.viewHeight, geo.offsetTop(s.value), geo.offsetHeight(s.value))
                else ScrollUp(old(scrollTop), geo.offsetTop(s.value)))
           && open == old(open) && hid == old(hid) && hname == old(hname)
           && inputText == old(inputText) && selections == old(selections))
    }

    /**
     `processKeyboardEvents`: on keydown Enter selects the highlighted entry
     and blurs, Escape blurs, other keys do nothing; on keyup an arrow moves
     the highlight to an adjacent entry if there is one (ArrowDown scrolling
     only to bottom-align it, ArrowUp only to top-align it), and any other key
     yields the text typed so far.
     */
    method ProcessKeyboardEvents(phase: KeyPhase, key: string, geo: Geometry) returns (value: Option<string>)
      requires Valid()
      requires phase == KeyDown && StandardizeKey(key) == "Enter" ==> highlighted.Some?
      requires phase == KeyUp && IsArrow(StandardizeKey(key)) ==> highlighted.Some?
      modifies this
      ensures Valid()
      ensures value == if phase == KeyUp && !IsArrow(StandardizeKey(key)) then Some(old(inputText)) else None
      ensures phase == KeyUp && !IsArrow(StandardizeKey(key)) ==> unchanged(this)
      ensures KeyHandled(phase, key, geo)
    {
      value := None;
      var current := highlighted;
      var k := StandardizeKey(key);
      if phase == KeyDown {
        if k == "Enter" || k == "Escape" {
          if k == "Enter" {
            Select(current.value);
          }
          // `input.blur()` fires a blur event whose `relatedTarget` is null.
          OnBlur(Nothing);
        }
      } else {
        if k == "ArrowDown" || k == "ArrowUp" {
          var next := Sibling(current.value, |entries|, k == "ArrowDown");
          if next.Some? {
            Highlight(next.value);
            var top, height := geo.offsetTop(next.value), geo.offsetHeight(next.value);
            if k == "ArrowDown" && top + height > scrollTop + geo.viewHeight {
              scrollTop := top - (geo.viewHeight - height);
            } else if k == "ArrowUp" && top < scrollTop {
              scrollTop := top;
            }
          }
        } else {
          value := Some(inputText);
        }
      }
    }

    /**
     `onKey`, for keydown and keyup alike: the key is processed, and text
     returned by a keyup re-opens the list with it, unless an endpoint is set.
     */
    method OnKey(phase: KeyPhase, key: string, geo: Geometry)
      requires Valid()
      requires phase == KeyDown && StandardizeKey(key) == "Enter" ==> highlighted.Some?
      requires phase == KeyUp && IsArrow(StandardizeKey(key)) ==> highlighted.Some?
      requires phase == KeyUp && !IsArrow(StandardizeKey(key)) && endpoint == "" ==> CanOpen(inputText)
      modifies this
      ensures Valid()
      ensures !(phase == KeyUp && !IsArrow(StandardizeKey(key))) ==> KeyHandled(phase, key, geo)
      ensures phase == KeyUp && !IsArrow(StandardizeKey(key)) && endpoint != "" ==> unchanged(this)
      ensures phase == KeyUp && !IsArrow(StandardizeKey(key)) && endpoint == "" ==>
        && Shows(inputText, geo)
        && unchanged(this`items, this`hid, this`hname, this`inputText, this`selections)
    {
      var str := ProcessKeyboardEvents(phase, key, geo);
      if endpoint != "" && phase == KeyUp {
      } else if str.Some? {
        Open(str.value, geo);
      }
    }
  }
}
