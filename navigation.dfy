/**
 Keys, targets of blur and pointer events, and the arithmetic of moving the
 highlight through the list and scrolling the list to keep it in view.
 */
module Navigation {
  import opened Wrappers

  /** The `event.key` spellings of old Edge and Internet Explorer, mapped to the standard names. */
  function StandardizeKey(k: string): (r: string)
    ensures k !in {"Up", "Down", "Esc"} ==> r == k
    ensures r !in {"Up", "Down", "Esc"}
  {
    match k
    case "Up" => "ArrowUp"
    case "Down" => "ArrowDown"
    case "Esc" => "Escape"
    case _ => k
  }

  lemma StandardizeKeyMapsLegacyNames()
    ensures StandardizeKey("Up") == "ArrowUp"
    ensures StandardizeKey("Down") == "ArrowDown"
    ensures StandardizeKey("Esc") == "Escape"
  {
  }

  lemma StandardizeKeyIdempotent(k: string)
    ensures StandardizeKey(StandardizeKey(k)) == StandardizeKey(k)
  {
  }

  /** The keys the current version handles on keydown and ignores on keyup. */
  predicate IsCommandKey(k: string)
  {
    k == "Enter" || k == "Escape" || k == "ArrowDown" || k == "ArrowUp"
  }

  predicate IsArrow(k: string)
  {
    k == "ArrowDown" || k == "ArrowUp"
  }

  /**
   `nextElementSibling` (down) or `previousElementSibling` (up) of the entry at
   position `h` in a list of `n` entries; `None` past either end.
   */
  function Sibling(h: nat, n: nat, down: bool): (r: Option<nat>)
    requires h < n
    ensures r.Some? ==> r.value < n
    ensures r.Some? ==> if down then r.value == h + 1 else r.value + 1 == h
    ensures r.None? <==> if down then h == n - 1 else h == 0
  {
    if down then (if h + 1 < n then Some(h + 1) else None)
    else (if h > 0 then Some(h - 1) else None)
  }

  /** The entry at offset `top` with height `height` lies wholly inside the viewport. */
  predicate Visible(scrollTop: int, viewHeight: int, top: int, height: int)
  {
    scrollTop <= top && top + height <= scrollTop + viewHeight
  }

  /**
   The current version's scroll adjustment after an arrow key: bottom-align
   an entry below the viewport, top-align one above it, leave it otherwise.
   When the entry fits, it ends visible and the scroll moves no further than
   to the nearest position that shows it.
   */
  function ScrollIntoView(scrollTop: int, viewHeight: int, top: int, height: int): (r: int)
    ensures r == scrollTop || r == top || r + viewHeight == top + height
    ensures Visible(scrollTop, viewHeight, top, height) ==> r == scrollTop
    ensures height <= viewHeight ==> Visible(r, viewHeight, top, height)
    ensures forall s :: height <= viewHeight && Visible(s, viewHeight, top, height) ==>
      (if r <= scrollTop then scrollTop - r else r - scrollTop) <= (if s <= scrollTop then scrollTop - s else s - scrollTop)
  {
    if top + height > scrollTop + viewHeight then top - (viewHeight - height)
    else if top < scrollTop then top
    else scrollTop
  }

  /** The old version's adjustment after ArrowDown: only ever bottom-aligns. */
  function ScrollDown(scrollTop: int, viewHeight: int, top: int, height: int): (r: int)
    ensures r >= scrollTop
    ensures r != scrollTop ==> r + viewHeight == top + height
    ensures top + height <= r + viewHeight
  {
    if top + height > scrollTop + viewHeight then top - (viewHeight - height) else scrollTop
  }

  /** The old version's adjustment after ArrowUp: only ever top-aligns. */
  function ScrollUp(scrollTop: int, top: int): (r: int)
    ensures r <= scrollTop
    ensures r != scrollTop ==> r == top
    ensures r <= top
  {
    if top < scrollTop then top else scrollTop
  }

  /**
   Each old-version adjustment agrees with the current one whenever the entry
   lies on the side of the viewport its key moves towards.
   */
  lemma OldScrollAgreesWithNew(scrollTop: int, viewHeight: int, top: int, height: int)
    requires 0 <= height <= viewHeight
    ensures top + height > scrollTop + viewHeight ==>
      ScrollDown(scrollTop, viewHeight, top, height) == ScrollIntoView(scrollTop, viewHeight, top, height)
    ensures top + height <= scrollTop + viewHeight ==>
      ScrollUp(scrollTop, top) == ScrollIntoView(scrollTop, viewHeight, top, height)
  {
  }

  /**
   The layout the browser computes for the rendered list: each entry's
   `offsetTop` and `offsetHeight` by position, and the container's height.
   */
  datatype Geometry = Geometry(offsetTop: nat -> int, offsetHeight: nat -> int, viewHeight: int)

  /**
   The element a blur moves focus to (`relatedTarget`) or a click lands on:
   nothing, the text field, the `ul`, an `li`, its button, a `span` directly
   inside the button, an element nested deeper (the `<strong>` of an
   emphasised name), or anything outside the widget.
   */
  datatype Target =
    | Nothing
    | TextField
    | ListBox
    | Row(i: nat)
    | Button(i: nat)
    | ButtonSpan(i: nat)
    | Nested(i: nat)
    | Outside

  /** The target is one of the `n` rendered entries' elements, or no entry at all. */
  predicate InList(t: Target, n: nat)
  {
    (t.Row? || t.Button? || t.ButtonSpan? || t.Nested?) ==> t.i < n
  }

  /**
   `parentElement`: the `<strong>` sits in the name span, the span in the
   button, the button in the `li`, the `li` in the `ul`; everything else is
   outside the list (the page's own elements are not told apart), and a
   missing element has no parent.
   */
  function Parent(t: Target): Target
  {
    match t
    case Nested(i) => ButtonSpan(i)
    case ButtonSpan(i) => Button(i)
    case Button(i) => Row(i)
    case Row(_) => ListBox
    case Nothing => Nothing
    case _ => Outside
  }

  /** How many steps up from `t` remain inside the list. */
  function Depth(t: Target): nat
  {
    match t
    case Nested(_) => 5
    case ButtonSpan(_) => 4
    case Button(_) => 3
    case Row(_) => 2
    case ListBox => 1
    case _ => 0
  }

  /** `classList.contains('combobox-button')`. */
  predicate IsButton(t: Target)
  {
    t.Button?
  }

  /**
   `el.closest('li')` for a widget that no `li` of the page encloses: the
   element itself if it is an `li`, else the same question for its parent;
   once the walk leaves the list no `li` remains above it.
   */
  function ClosestLi(t: Target): Option<nat>
    decreases Depth(t)
  {
    if t.Row? then Some(t.i)
    else if Depth(t) == 0 then None
    else ClosestLi(Parent(t))
  }

  /** The entry an element belongs to, read off the target directly. */
  function ClosestRow(t: Target): (r: Option<nat>)
    ensures r.Some? <==> t.Row? || t.Button? || t.ButtonSpan? || t.Nested?
    ensures r.Some? ==> r.value == t.i
  {
    match t
    case Row(i) => Some(i)
    case Button(i) => Some(i)
    case ButtonSpan(i) => Some(i)
    case Nested(i) => Some(i)
    case _ => None
  }

  /** Reading the entry off the target is the `closest('li')` walk up the ancestors. */
  lemma {:induction false} ClosestRowClimbs(t: Target)
    ensures ClosestRow(t) == ClosestLi(t)
    decreases Depth(t)
  {
    match t
    case Nested(i) =>
      ClosestRowClimbs(ButtonSpan(i));
    case ButtonSpan(i) =>
      ClosestRowClimbs(Button(i));
    case Button(i) =>
      assert ClosestLi(Row(i)) == Some(i);
    case ListBox =>
      assert ClosestLi(Outside) == None;
    case _ =>
  }
}
