/**
 The string operations the widget borrows from JavaScript: ASCII `toLowerCase`,
 `indexOf`, `substring`, and the `textContent` of a fragment of markup.
 */
module Text {
  import opened Wrappers

  const StrongOpen: string := "<strong>"
  const StrongClose: string := "</strong>"

  /** `toLowerCase` restricted to ASCII: only 'A'..'Z' change. */
  function LowerChar(c: char): char
  {
    if 'A' <= c <= 'Z' then (c as int + 32) as char else c
  }

  function Lower(s: string): string
  {
    seq(|s|, i requires 0 <= i < |s| => LowerChar(s[i]))
  }

  lemma LowerConcat(a: string, b: string)
    ensures Lower(a + b) == Lower(a) + Lower(b)
  {
    assert forall i :: 0 <= i < |a + b| ==> Lower(a + b)[i] == (Lower(a) + Lower(b))[i];
  }

  lemma LowerSlice(s: string, i: nat, j: nat)
    requires i <= j <= |s|
    ensures Lower(s[i..j]) == Lower(s)[i..j]
  {
  }

  /** `needle` occurs in `hay` starting at position `q`. */
  predicate OccursAt(hay: string, needle: string, q: int)
  {
    0 <= q && q + |needle| <= |hay| && hay[q..q + |needle|] == needle
  }

  /** `hay.indexOf(needle, from)`, with `None` for -1. */
  function IndexOfFrom(hay: string, needle: string, from: nat): (r: Option<nat>)
    decreases |hay| - from
    ensures r.Some? ==> from <= r.value && OccursAt(hay, needle, r.value)
    ensures forall q :: from <= q && OccursAt(hay, needle, q) ==> r.Some? && r.value <= q
  {
    if from + |needle| > |hay| then None
    else if hay[from..from + |needle|] == needle then Some(from)
    else IndexOfFrom(hay, needle, from + 1)
  }

  /** `hay.indexOf(needle)`: the first position at which `needle` occurs, `None` when it does not occur. */
  function IndexOf(hay: string, needle: string): (r: Option<nat>)
    ensures r.Some? ==> OccursAt(hay, needle, r.value)
    ensures r.Some? ==> forall q :: OccursAt(hay, needle, q) ==> r.value <= q
    ensures r.None? ==> forall q :: !OccursAt(hay, needle, q)
  {
    IndexOfFrom(hay, needle, 0)
  }

  /** A string without markup delimiters: names and typed text are taken to be of this kind. */
  predicate TagFree(s: string)
  {
    forall i :: 0 <= i < |s| ==> s[i] != '<' && s[i] != '>'
  }

  /** What follows the closing '>' of a tag whose '<' has already been consumed. */
  function AfterTag(s: string): (r: string)
    ensures |r| <= |s|
  {
    if s == [] then []
    else if s[0] == '>' then s[1..]
    else AfterTag(s[1..])
  }

  /** The `textContent` of a markup fragment: its characters with every tag removed. */
  function TextContent(s: string): string
    decreases |s|
  {
    if s == [] then []
    else if s[0] == '<' then TextContent(AfterTag(s[1..]))
    else [s[0]] + TextContent(s[1..])
  }

  lemma {:induction false} AfterTagName(name: string, rest: string)
    requires TagFree(name)
    ensures AfterTag(name + ">" + rest) == rest
  {
    if name == [] {
      assert name + ">" + rest == [('>')] + rest;
    } else {
      assert (name + ">" + rest)[1..] == name[1..] + ">" + rest;
      AfterTagName(name[1..], rest);
    }
  }

  /** Text without tags passes through `textContent` unchanged. */
  lemma {:induction false} TextContentPrefix(a: string, b: string)
    requires TagFree(a)
    ensures TextContent(a + b) == a + TextContent(b)
  {
    if a != [] {
      assert (a + b)[1..] == a[1..] + b;
      TextContentPrefix(a[1..], b);
    } else {
      assert a + b == b;
    }
  }

  lemma TextContentOfTagFree(a: string)
    requires TagFree(a)
    ensures TextContent(a) == a
  {
    TextContentPrefix(a, []);
    assert a + [] == a;
  }

  /** A whole tag contributes nothing to the text content. */
  lemma TextContentSkipsTag(name: string, rest: string)
    requires TagFree(name)
    ensures TextContent("<" + name + ">" + rest) == TextContent(rest)
  {
    var s := "<" + name + ">" + rest;
    assert s[0] == '<';
    assert s[1..] == name + ">" + rest;
    AfterTagName(name, rest);
  }

  /** A tag followed by tag-free text contributes just that text. */
  lemma TextContentTagThen(name: string, b: string, rest: string)
    requires TagFree(name) && TagFree(b)
    ensures TextContent(("<" + name + ">") + (b + rest)) == b + TextContent(rest)
  {
    TextContentSkipsTag(name, b + rest);
    TextContentPrefix(b, rest);
  }

  /** A tag-free segment between two tags keeps just the text around and inside them. */
  lemma TextContentWrapped(a: string, open: string, b: string, close: string, c: string)
    requires TagFree(a) && TagFree(open) && TagFree(b) && TagFree(close) && TagFree(c)
    ensures TextContent(a + ("<" + open + ">") + b + ("<" + close + ">") + c) == a + b + c
  {
    var x, y := "<" + open + ">", "<" + close + ">";
    TextContentNested(a, x, open, b, y, close, c);
    Regroup(a, x, b, y, c);
    Regroup3(a, b, c);
  }

  lemma Regroup3(a: string, b: string, c: string)
    ensures a + (b + c) == a + b + c
  {
  }

  lemma TextContentNested(a: string, x: string, open: string, b: string, y: string, close: string, c: string)
    requires x == "<" + open + ">" && y == "<" + close + ">"
    requires TagFree(a) && TagFree(open) && TagFree(b) && TagFree(close) && TagFree(c)
    ensures TextContent(a + (x + (b + (y + c)))) == a + (b + c)
  {
    TextContentTail(close, c);
    TextContentTagThen(open, b, y + c);
    TextContentPrefix(a, x + (b + (y + c)));
  }

  lemma TextContentTail(close: string, c: string)
    requires TagFree(close) && TagFree(c)
    ensures TextContent(("<" + close + ">") + c) == c
  {
    TextContentSkipsTag(close, c);
    TextContentOfTagFree(c);
  }

  lemma Regroup(a: string, x: string, b: string, y: string, c: string)
    ensures a + x + b + y + c == a + (x + (b + (y + c)))
  {
  }

  /** Wrapping a tag-free segment in `<strong>` leaves the text content as it was. */
  lemma TextContentStrong(a: string, b: string, c: string)
    requires TagFree(a) && TagFree(b) && TagFree(c)
    ensures TextContent(a + StrongOpen + b + StrongClose + c) == a + b + c
  {
    assert StrongOpen == "<" + "strong" + ">";
    assert StrongClose == "<" + "/strong" + ">";
    TextContentWrapped(a, "strong", b, "/strong", c);
  }

  /** JavaScript's clamping of a `substring` bound into `[0, n]`. */
  function Clamp(x: int, n: nat): (r: nat)
    ensures r <= n
  {
    if x < 0 then 0 else if x > n then n else x
  }

  /** `s.substring(a, b)`: both bounds clamped, swapped when the first exceeds the second. */
  function JsSubstring(s: string, a: int, b: int): string
  {
    var x, y := Clamp(a, |s|), Clamp(b, |s|);
    if x <= y then s[x..y] else s[y..x]
  }
}
