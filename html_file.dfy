/** The HTML page the table generator writes (log2tbl.py `HtmlFile`): a list
    of section items, and a navigation list whose nesting follows the
    section levels. Sections may go down one level at a time, and may come
    back up any number of levels; every `<ul>` the navigation opens is
    closed again when the page is finished. */
module HtmlPage {
  import opened Strings

  /** The indentation unit (`HtmlFile.sp`). */
  const Sp := "  "

  /** The anchor of section number `secn`. */
  function Anchor(secn: nat): string {
    "id" + NatToString(secn)
  }

  /** One line of the navigation text. `Open(d)` and `Close(d)` are indented
      `d` units; a link at `level` is indented `level + 1` units. */
  datatype NavLine =
    | Title
    | Open(depth: int)
    | Close(depth: int)
    | Link(link: string, level: int, secn: nat)

  function Render(p: NavLine): string {
    match p
    case Title => "<h4>Contents</h4>\n"
    case Open(d) => Repeat(Sp, d) + "<ul>\n"
    case Close(d) => Repeat(Sp, d) + "</ul>\n"
    case Link(link, level, secn) =>
      Repeat(Sp, level + 1) + "<li><a href=\"#" + Anchor(secn) + "\">" + link + "</a></li>\n"
  }

  /** The navigation text the lines make up. */
  function Text(ps: seq<NavLine>): string
    decreases |ps|
  {
    if |ps| == 0 then "" else Text(ps[..|ps| - 1]) + Render(ps[|ps| - 1])
  }

  /** Writing two runs of lines one after the other writes their texts one
      after the other, so holding the navigation as lines loses nothing of
      `self.nav += ...`. */
  lemma {:induction false} TextAppend(a: seq<NavLine>, b: seq<NavLine>)
    ensures Text(a + b) == Text(a) + Text(b)
    decreases |b|
  {
    if |b| > 0 {
      var c := b[..|b| - 1];
      assert (a + b)[..|a + b| - 1] == a + c;
      assert (a + b)[|a + b| - 1] == b[|b| - 1];
      TextAppend(a, c);
    } else {
      assert a + b == a;
    }
  }

  /** Opened minus closed lists. */
  function Depth(ps: seq<NavLine>): int
    decreases |ps|
  {
    if |ps| == 0 then 0
    else
      var p := ps[|ps| - 1];
      Depth(ps[..|ps| - 1]) + (if p.Open? then 1 else if p.Close? then -1 else 0)
  }

  /** No prefix closes more lists than it has opened. */
  ghost predicate Nested(ps: seq<NavLine>) {
    forall k :: 0 <= k <= |ps| ==> Depth(ps[..k]) >= 0
  }

  lemma NestedSnoc(ps: seq<NavLine>, p: NavLine)
    requires Nested(ps) && Depth(ps + [p]) >= 0
    ensures Nested(ps + [p])
  {
    forall k | 0 <= k <= |ps| + 1 ensures Depth((ps + [p])[..k]) >= 0 {
      if k <= |ps| {
        assert (ps + [p])[..k] == ps[..k];
      } else {
        assert (ps + [p])[..k] == ps + [p];
      }
    }
  }

  /** The lines closing the lists from depth `from` down to depth `to`. */
  function Closing(from: int, to: int): (r: seq<NavLine>)
    ensures |r| == if from <= to then 0 else from - to
    decreases from - to
  {
    if from <= to then [] else [Close(from)] + Closing(from - 1, to)
  }

  lemma {:induction false} ClosingSnoc(from: int, to: int)
    requires to <= from
    ensures Closing(from, to - 1) == Closing(from, to) + [Close(to)]
    decreases from - to
  {
    if to < from {
      ClosingSnoc(from - 1, to);
    }
  }

  /** The lines `add_nav_item` writes before the link itself. */
  function Opening(lastLevel: int, level: int): seq<NavLine> {
    if level == lastLevel + 1 then [Open(lastLevel + 1)]
    else if level < lastLevel then Closing(lastLevel, level)
    else []
  }

  /** The heading `new_section` adds for section `secn`. */
  function Heading(heading: string, level: int, secn: nat): string
    requires level >= -2
  {
    var l := NatToString(level + 2);
    "<h" + l + "><a id=\"" + Anchor(secn) + "\">" + heading + "</a></h" + l + ">\n"
  }

  class HtmlFile {
    var items: seq<string>
    /** The navigation, held as the lines whose text is `nav`. */
    var lines: seq<NavLine>
    var secn: nat
    var lastLevel: int
    /** The page text, set by `Finish`. */
    var s: string

    /** `self.nav` */
    function Nav(): string
      reads this`lines
    {
      Text(lines)
    }

    /** One list is open per level up to `lastLevel`, and no prefix of the
        navigation closes a list it did not open. */
    ghost predicate Valid()
      reads this`lines, this`lastLevel
    {
      && lastLevel >= -1
      && Depth(lines) == lastLevel + 1
      && Nested(lines)
    }

    constructor ()
      ensures Valid()
      ensures items == [] && secn == 0 && lastLevel == -1 && lines == [Title]
    {
      items := [];
      secn := 0;
      lastLevel := -1;
      s := "";
      lines := [Title];
      assert [Title][..0] == [] && [Title][..1] == [Title];
    }

    /** `self.nav += ...`: one more line, which must not close a list that
        is not open. */
    method Emit(p: NavLine)
      requires Nested(lines)
      requires Depth(lines + [p]) >= 0
      modifies this
      ensures lines == old(lines) + [p] && Nested(lines)
      ensures items == old(items) && secn == old(secn) && lastLevel == old(lastLevel) && s == old(s)
    {
      NestedSnoc(lines, p);
      assert (lines + [p])[..|lines|] == lines;
      lines := lines + [p];
    }

    /** `close_nav(level)`: one `</ul>` per level from `lastLevel` down to
        `level + 1`, deepest first. */
    method CloseNav(level: int)
      requires Valid() && level >= -1
      modifies this
      ensures Valid()
      ensures lastLevel == if old(lastLevel) > level then level else old(lastLevel)
      ensures lines == old(lines) + Closing(old(lastLevel), level)
      ensures items == old(items) && secn == old(secn) && s == old(s)
    {
      while lastLevel > level
        invariant Valid()
        invariant level <= old(lastLevel) ==> level <= lastLevel
        invariant level > old(lastLevel) ==> lastLevel == old(lastLevel)
        invariant lines == old(lines) + Closing(old(lastLevel), lastLevel)
        invariant items == old(items) && secn == old(secn) && s == old(s)
        decreases lastLevel
      {
        ClosingSnoc(old(lastLevel), lastLevel);
        Emit(Close(lastLevel));
        lastLevel := lastLevel - 1;
      }
    }

    /** `add_nav_item(link, level)`: the link one level further down opens a
        list, a link further up closes lists first; skipping a level fails
        the assertion and changes nothing. */
    method AddNavItem(link: string, level: int) returns (ok: bool)
      requires Valid() && level >= 0
      modifies this
      ensures Valid()
      ensures ok <==> level <= old(lastLevel) + 1
      ensures ok ==> lastLevel == level
      ensures ok ==> lines == old(lines) + Opening(old(lastLevel), level) + [Link(link, level, secn)]
      ensures !ok ==> lines == old(lines) && lastLevel == old(lastLevel)
      ensures items == old(items) && secn == old(secn) && s == old(s)
    {
      if level == lastLevel {
      } else if level == lastLevel + 1 {
        Emit(Open(lastLevel + 1));
      } else if level < lastLevel {
        CloseNav(level);
      } else {
        return false;
      }
      Emit(Link(link, level, secn));
      lastLevel := level;
      ok := true;
    }

    /** `new_section(heading, level)`: the heading item and its link share
        the section number, which then advances. A level outside 0..2 fails
        before anything changes; a skipped level fails after the heading
        item is added. */
    method NewSection(heading: string, level: int) returns (ok: bool)
      requires Valid()
      modifies this
      ensures Valid()
      ensures ok <==> 0 <= level <= 2 && level <= old(lastLevel) + 1
      ensures !(0 <= level <= 2) ==> items == old(items)
      ensures 0 <= level <= 2 ==> items == old(items) + [Heading(heading, level, old(secn))]
      ensures ok ==> secn == old(secn) + 1 && lastLevel == level
      ensures ok ==> lines == old(lines) + Opening(old(lastLevel), level) + [Link(heading, level, old(secn))]
      ensures !ok ==> secn == old(secn) && lines == old(lines) && lastLevel == old(lastLevel)
      ensures s == old(s)
    {
      if !(0 <= level <= 2) {
        return false;
      }
      items := items + [Heading(heading, level, secn)];
      ok := AddNavItem(heading, level);
      if ok {
        secn := secn + 1;
      }
    }

    /** `add_html(html)` */
    method AddHtml(html: string)
      requires Valid()
      modifies this
      ensures Valid()
      ensures items == old(items) + [html]
      ensures lines == old(lines) && secn == old(secn) && lastLevel == old(lastLevel)
      ensures s == old(s)
    {
      items := items + [html];
    }

    /** `finish(nav)`: every open list is closed, and the page is the
        prefix, the navigation when asked for, the items and the suffix. */
    method Finish(prefix: string, suffix: string, withNav: bool)
      requires Valid()
      modifies this
      ensures Valid()
      ensures lastLevel == -1 && Depth(lines) == 0
      ensures lines == old(lines) + Closing(old(lastLevel), -1)
      ensures s == Concat([prefix] + (if withNav then [Nav()] else []) + items + [suffix])
      ensures items == old(items) && secn == old(secn)
    {
      CloseNav(-1);
      var nav := if withNav then [Nav()] else [];
      s := Concat([prefix] + nav + items + [suffix]);
    }
  }

  /** A finished navigation opens and closes as many lists as it has
      sections at increasing depth: a page whose sections go down two
      levels and come back has a balanced navigation text. */
  method Example() returns (page: HtmlFile)
    ensures page.Valid() && page.lastLevel == -1
    ensures page.lines == [Title, Open(0), Link("a", 0, 0), Open(1), Link("b", 1, 1), Close(1), Close(0)]
  {
    page := new HtmlFile();
    var ok := page.NewSection("a", 0);
    assert ok;
    ok := page.NewSection("b", 1);
    assert ok;
    page.Finish("", "", true);
  }
}
