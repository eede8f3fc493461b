/** Which paragraphs a body has, and what the partition is told of one
    (`_iter_body_paragraphs`, `_paragraph_style_id` and `_paragraph_is_real_heading`,
    `scripts/extraction_normalization_stage.py`): a paragraph is a body's when some path leads
    to it, down tables and through the wrappers the iteration steps through. */
module BodyParagraphFacts {
  import opened Prelude
  import opened Markup
  import opened Reading
  import opened Boundaries
  import opened LeadIns
  import opened FieldRegions
  import opened DocumentParagraphs

  /** Following `path` from these elements, down tables by rows and cells, and through content controls that
      show their content and custom XML at any level, leads to the paragraph. */
  predicate Leads(level: Level, elements: seq<Node>, path: seq<nat>, p: Node)
    decreases |path|
  {
    && path != [] && path[0] < |elements|
    && var node := elements[path[0]];
       var rest := path[1..];
       || (rest == [] && level == InBody && node.tag == P && node == p)
       || (level == InBody && node.tag == Tbl && Leads(InTable, node.children, rest, p))
       || (level == InTable && node.tag == Tr && Leads(InRow, node.children, rest, p))
       || (level == InRow && node.tag == Tc && Leads(InBody, node.children, rest, p))
       || (node.tag == CustomXml && Leads(level, node.children, rest, p))
       || (node.tag == Sdt && !ShowsPlaceholder(node.children)
           && Leads(level, FindChildren(node.children, SdtContent), rest, p))
  }

  /** Some path leads to the paragraph. */
  ghost predicate LedTo(level: Level, elements: seq<Node>, p: Node) {
    exists path :: Leads(level, elements, path, p)
  }

  /** Some path that starts at the first element does. */
  ghost predicate LedToFirst(level: Level, elements: seq<Node>, p: Node) {
    exists path: seq<nat> :: path != [] && path[0] == 0 && Leads(level, elements, path, p)
  }

  lemma {:induction false} LeadsShift(level: Level, elements: seq<Node>, path: seq<nat>, p: Node)
    requires elements != [] && path != [] && path[0] > 0
    ensures Leads(level, elements, path, p) <==> Leads(level, elements[1..], [path[0] - 1] + path[1..], p)
  {
    var moved := [path[0] - 1] + path[1..];
    assert moved[1..] == path[1..];
    if path[0] < |elements| { assert elements[1..][moved[0]] == elements[path[0]]; }
  }

  lemma {:induction false} LeadsInto(level: Level, elements: seq<Node>, path: seq<nat>, p: Node)
    requires elements != [] && path != [] && path[0] == 0
    ensures Leads(level, elements, path, p)
      <==> ((path == [0] && level == InBody && elements[0].tag == P && elements[0] == p)
            || (Below(level, elements[0]).Some?
                && Leads(Below(level, elements[0]).value.0, Below(level, elements[0]).value.1, path[1..], p)))
  {
    assert path == [0] + path[1..];
    assert path[1..] == [] ==> path == [0];
  }

  /** A body's paragraphs are those such a path leads to. */
  lemma {:induction false} ParagraphsAreLedTo(level: Level, elements: seq<Node>, p: Node)
    ensures p in Paragraphs(level, elements) <==> LedTo(level, elements, p)
    decreases elements, 0
  {
    hide ParagraphsOf, LedTo, LedToFirst;
    if elements == [] {
      NowhereToGo(level, elements, p);
    } else {
      ParagraphsAreLedTo(level, elements[1..], p);
      FirstIsLedTo(level, elements, p);
      FirstOrRest(level, elements, p);
    }
  }

  lemma {:induction false} FirstOrRest(level: Level, elements: seq<Node>, p: Node)
    requires elements != []
    ensures LedTo(level, elements, p) <==> LedToFirst(level, elements, p) || LedTo(level, elements[1..], p)
  {
    if path :| Leads(level, elements, path, p) {
      if path[0] > 0 { LeadsShift(level, elements, path, p); }
    }
    if path :| Leads(level, elements[1..], path, p) {
      var back := [path[0] + 1] + path[1..];
      assert [back[0] - 1] + back[1..] == path;
      LeadsShift(level, elements, back, p);
    }
  }

  lemma {:induction false} NowhereToGo(level: Level, elements: seq<Node>, p: Node)
    requires elements == []
    ensures Paragraphs(level, elements) == [] && !LedTo(level, elements, p)
  {
  }

  lemma {:induction false} FirstStep(level: Level, elements: seq<Node>, p: Node)
    requires elements != []
    ensures LedToFirst(level, elements, p)
      <==> ((level == InBody && elements[0].tag == P && elements[0] == p)
            || (Below(level, elements[0]).Some?
                && LedTo(Below(level, elements[0]).value.0, Below(level, elements[0]).value.1, p)))
  {
    hide Below;
    var node := elements[0];
    if path: seq<nat> :| path != [] && path[0] == 0 && Leads(level, elements, path, p) {
      LeadsInto(level, elements, path, p);
    }
    if level == InBody && node.tag == P && node == p { LeadsInto(level, elements, [0], p); }
    if Below(level, node).Some? {
      var next, children := Below(level, node).value.0, Below(level, node).value.1;
      if path: seq<nat> :| Leads(next, children, path, p) {
        var full := [0] + path;
        assert full[0] == 0 && full[1..] == path;
        LeadsInto(level, elements, full, p);
      }
    }
  }

  lemma {:induction false} FirstIsLedTo(level: Level, elements: seq<Node>, p: Node)
    requires elements != []
    ensures p in ParagraphsOf(level, elements[0]) <==> LedToFirst(level, elements, p)
    decreases elements[0], 1
  {
    hide LedTo, LedToFirst, Below, Paragraphs;
    var node := elements[0];
    FirstStep(level, elements, p);
    if level == InBody && node.tag == P {
      NotBelowParagraph(node);
    } else if Below(level, node).Some? {
      var next, children := Below(level, node).value.0, Below(level, node).value.1;
      GoesBelow(level, node);
      if children == [] {
        NowhereToGo(next, children, p);
      } else {
        BelowIsBelow(level, node);
        ParagraphsAreLedTo(next, children, p);
      }
    }
  }

  lemma {:induction false} GoesBelow(level: Level, node: Node)
    requires Below(level, node).Some? && !(level == InBody && node.tag == P)
    ensures var (next, children) := Below(level, node).value; ParagraphsOf(level, node) == Paragraphs(next, children)
  {
  }

  lemma {:induction false} NotBelowParagraph(node: Node)
    requires node.tag == P
    ensures Below(InBody, node).None?
  {
  }

  // ---------------------------------------------------------------------
  // What the partition is told
  // ---------------------------------------------------------------------

  /** The style's name, stripped and in lower case, begins so. */
  predicate StyledAs(p: Node, prefix: string) {
    prefix <= Lower(Strip(StyleOf(p.children)))
  }

  /** A paragraph styled as a table of contents or an index is a listing line whatever its text; one styled as
      a heading, or with an outline level from nought to eight, is a real heading. */
  lemma {:induction false} ParaIs(p: Node)
    ensures ParaOf(p).listingStyle <==> StyledAs(p, "toc") || StyledAs(p, "index")
    ensures ParaOf(p).realHeading
      <==> StyledAs(p, "heading") || exists level: int :: 0 <= level <= 8 && OutlineOf(p.children) == Some(level)
  {
    hide Strip, StyleOf, OutlineOf, WhollyBold;
    PrefixAt(StyleId(p.children), "toc");
    PrefixAt(StyleId(p.children), "index");
    PrefixAt(StyleId(p.children), "heading");
  }

  lemma {:induction false} PrefixAt(s: string, prefix: string)
    ensures StartsWith(s, prefix) <==> prefix <= s
  {
    if |prefix| <= |s| { assert s[0..|prefix|] == s[..|prefix|]; }
  }
}
