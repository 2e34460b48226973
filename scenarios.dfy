/**
 The documented walkthrough on the two-city collection, and what re-rendering
 after a selection highlights.
 */
module Scenarios {
  import opened Wrappers
  import opened Text
  import opened Listing
  import Navigation
  import Js = JsComboBox
  import Legacy = LegacyComboBox

  const Cities: seq<Item> := [Item("1", "Rome", "RM"), Item("2", "Turin", "TO")]

  /** With no selection and an empty field the first city is highlighted. */
  lemma FocusHighlightsFirst()
    ensures FirstMatch(Cities, "").None?
    ensures HighlightId(Cities, "", "") == "1"
    ensures Find(Ids(Cities), HighlightId(Cities, "", "")) == Some(0)
  {
    assert Ids(Cities) == ["1", "2"];
  }

  /** Typing "tur" highlights Turin. */
  lemma TypingTurHighlightsTurin()
    ensures FirstMatch(Cities, "tur") == Some(1)
    ensures Find(Ids(Cities), HighlightId(Cities, "tur", "")) == Some(1)
  {
    assert Lower("Rome") == "rome";
    assert Lower("tur") == "tur";
    assert "rome"[0..3][2] == 'm' && "rome"[1..4][0] == 'o';
    assert forall q :: !OccursAt("rome", "tur", q);
    assert !Matches("Rome", "tur");
    TurMatchesTurinAtStart();
    assert Ids(Cities) == ["1", "2"];
  }

  lemma TurMatchesTurinAtStart()
    ensures Matches("Turin", "tur") && IndexOf(Lower("Turin"), Lower("tur")) == Some(0)
  {
    assert Lower("Turin") == "turin";
    assert Lower("tur") == "tur";
    assert OccursAt("turin", "tur", 0);
  }

  /**
   The current version bolds the typed text ("tur"), the older one the
   name's own letters ("Tur"): its splice is right for a match at the start.
   */
  lemma TurEmphasis()
    ensures Js.Emphasize("Turin", "tur") == StrongOpen + "tur" + StrongClose + "in"
    ensures Legacy.EmphasizeAsWritten("Turin", "tur") == StrongOpen + "Tur" + StrongClose + "in"
  {
    TurMatchesTurinAtStart();
    assert JsSubstring("Turin", 0, 0) == [] && JsSubstring("Turin", 0, 3) == "Tur";
    assert JsSubstring("Turin", 3, 5) == "in";
    assert "Turin"[..0] == [] && "Turin"[3..] == "in";
  }

  /** Any text matches the name it was copied from, once it has three characters. */
  lemma NameMatchesItself(name: string)
    requires |name| >= 3
    ensures Matches(name, name)
  {
    assert OccursAt(Lower(name), Lower(name), 0);
  }

  /**
   After selecting the passing item at `i` (text and `hid` become its name and
   id), re-rendering highlights it, unless an earlier item's name also
   contains the selected name.
   */
  lemma SelectThenRender(p: seq<Item>, i: nat)
    requires i < |p| && DistinctIds(p)
    requires forall j :: 0 <= j < i ==> !Matches(p[j].name, p[i].name)
    ensures Find(Ids(p), HighlightId(p, p[i].name, p[i].id)) == Some(i)
  {
    var str, hid := p[i].name, p[i].id;
    if |str| >= 3 {
      NameMatchesItself(str);
      assert FirstMatch(p, str) == Some(i);
    }
    assert Ids(p)[i] == hid;
    HighlightRule(p, str, hid);
  }

  /**
   The proviso is needed: after selecting "Turin" from a collection that lists
   "Turing" first, the re-rendered list highlights "Turing".
   */
  lemma SelectThenRenderCanMove()
    ensures var p := [Item("1", "Turing", ""), Item("2", "Turin", "")];
      Find(Ids(p), HighlightId(p, "Turin", "2")) == Some(0)
  {
    var p := [Item("1", "Turing", ""), Item("2", "Turin", "")];
    assert Lower("Turing")[0..5] == Lower("Turin");
    assert OccursAt(Lower("Turing"), Lower("Turin"), 0);
    assert Matches("Turing", "Turin");
    assert FirstMatch(p, "Turin") == Some(0);
    assert Ids(p) == ["1", "2"];
  }

  /** Turin alone, typed "uri": it passes, matches and is highlighted. */
  lemma UriHighlightsTurin(keep: Item -> bool)
    requires keep(Item("2", "Turin", "TO"))
    ensures var p := [Item("2", "Turin", "TO")];
      && Passing(p, keep) == p
      && CanRender(p, "uri", "")
      && Find(Ids(p), HighlightId(p, "uri", "")) == Some(0)
  {
    var turin := Item("2", "Turin", "TO");
    assert [turin][..0] == [];
    assert Lower("Turin") == "turin" && Lower("uri") == "uri";
    assert OccursAt("turin", "uri", 1);
    assert Matches(turin.name, "uri");
    assert FirstMatch([turin], "uri") == Some(0);
    assert Ids([turin]) == ["2"];
  }

  /** The older version renders Turin, typed "uri", as markup whose text is "Turn". */
  lemma UriRendersTurn()
    ensures TextContent(Legacy.Render([Item("2", "Turin", "TO")], "uri")[0].display) == "Turn"
  {
    var turin := Item("2", "Turin", "TO");
    assert Legacy.Render([turin], "uri")[0] == Legacy.EntryOf(turin, "uri");
    Legacy.AsWrittenDropsText();
  }

  /**
   In the older version, with "uri" in the field, a keyup renders Turin with
   the splice as written and highlights it; Enter then selects it, storing
   "Turn" as the selected name and the field's text, and closes the list.
   */
  method UriThenEnterStoresTurn(geo: Navigation.Geometry) returns (c: Legacy.ComboBox)
    ensures c.hid == "2" && c.hname == "Turn" && c.inputText == "Turn" && !c.open
  {
    c := new Legacy.ComboBox([Item("2", "Turin", "TO")], _ => true, "", false, "uri");
    UriHighlightsTurin(c.onFilter);
    UriRendersTurn();
    c.OnKey(Legacy.KeyUp, "i", geo);
    c.OnKey(Legacy.KeyDown, "Enter", geo);
  }

  /**
   In the current version, before any list has been rendered (no items yet),
   focus leaving the field for the page keeps the typed text: the null
   `relatedTarget` equals the empty div's first child.
   */
  method BlurBeforeRenderKeepsText(endpoint: string) returns (c: Js.ComboBox)
    ensures c.inputText == "ro" && c.hname == "" && !c.open && c.entries == []
  {
    c := new Js.ComboBox([], _ => true, endpoint, false, "ro");
    c.OnBlur(Navigation.Nothing);
  }

  /** Once a list is shown, the same blur closes it and restores the selected name. */
  method BlurAfterRenderRestores(geo: Navigation.Geometry) returns (c: Js.ComboBox)
    ensures c.inputText == "" && c.hname == "" && !c.open && c.entries != []
  {
    c := new Js.ComboBox(Cities, _ => true, "", false, "ro");
    assert Cities[..1] == [Cities[0]] && Cities[..2] == Cities;
    assert Ids(Cities) == ["1", "2"];
    c.Update(geo);
    c.OnBlur(Navigation.Nothing);
  }
}
