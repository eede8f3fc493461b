/** The single-file HTML envelope of a playbook: the embedded text is escaped so that it cannot
    close its own script tag, and extraction undoes it (`scripts/opf_html.py`). Extraction is a
    search for the first tag a reader recognises and for the first close tag behind it; that it
    finds the block that was put in, and finds no other, rests on what the escaped text cannot
    hold. */
module OpfHtml {
  import opened Prelude

  const CLOSER: string := "</script>"
  const ESCAPED: string := "<\\/"

  /** `escape_json_for_script`. */
  function Escape(t: string): string {
    if t == "" then ""
    else if StartsWithAt(t, "</", 0) then ESCAPED + Escape(t[2..])
    else [t[0]] + Escape(t[1..])
  }

  /** `_unescape_json_from_script`. */
  function Unescape(t: string): string {
    if t == "" then ""
    else if StartsWithAt(t, ESCAPED, 0) then "</" + Unescape(t[3..])
    else [t[0]] + Unescape(t[1..])
  }

  predicate Occurs(t: string, needle: string) {
    StartsWithAt(t, needle, 0) || (t != "" && Occurs(t[1..], needle))
  }

  lemma {:induction false} TwoChars(t: string, c: char, d: char)
    ensures StartsWithAt(t, [c, d], 0) <==> |t| >= 2 && t[0] == c && t[1] == d
  {
    if |t| >= 2 { assert t[0..2] == [t[0], t[1]]; }
  }

  lemma {:induction false} ThreeChars(t: string)
    ensures StartsWithAt(t, ESCAPED, 0) <==> |t| >= 3 && t[0] == '<' && t[1] == '\\' && t[2] == '/'
  {
    if |t| >= 3 { assert t[0..3] == [t[0], t[1], t[2]]; }
  }

  /** The embedded text holds no close-tag opener anywhere. */
  lemma {:induction false} EscapedHasNoClose(t: string)
    ensures !Occurs(Escape(t), "</")
  {
    TwoChars(t, '<', '/');
    var e := Escape(t);
    TwoChars(e, '<', '/');
    if t == "" {
    } else if StartsWithAt(t, "</", 0) {
      EscapedHasNoClose(t[2..]);
      var rest := Escape(t[2..]);
      var two, one := "\\/" + rest, "/" + rest;
      assert e[1..] == two && two[1..] == one && one[1..] == rest;
      TwoChars(two, '<', '/');
      TwoChars(one, '<', '/');
      assert !Occurs(one, "</");
      assert !Occurs(two, "</");
    } else {
      EscapedHasNoClose(t[1..]);
      assert e[1..] == Escape(t[1..]);
    }
  }

  /** The escaped text starts with an escaped opener only where the text starts with an opener, or
      with an escaped one of its own. */
  lemma {:induction false} EscapeStarts(t: string)
    ensures StartsWithAt(Escape(t), ESCAPED, 0) <==> StartsWithAt(t, "</", 0) || StartsWithAt(t, ESCAPED, 0)
  {
    TwoChars(t, '<', '/');
    ThreeChars(t);
    ThreeChars(Escape(t));
    if t != "" && !StartsWithAt(t, "</", 0) {
      var u := t[1..];
      TwoChars(u, '<', '/');
      assert Escape(t) == [t[0]] + Escape(u);
      if u != "" && u[0] == '\\' {
        assert Escape(u) == [u[0]] + Escape(u[1..]);
      }
    }
  }

  /** Unescaping the escaped text gives back the text exactly when the text held no escaped opener
      of its own. */
  lemma {:induction false} RoundTrip(t: string)
    ensures Unescape(Escape(t)) == t <==> !Occurs(t, ESCAPED)
    ensures |Unescape(Escape(t))| <= |t|
    decreases |t|, 1
  {
    TwoChars(t, '<', '/');
    ThreeChars(t);
    EscapeStarts(t);
    var e := Escape(t);
    if t == "" {
    } else if StartsWithAt(t, "</", 0) {
      RoundTrip(t[2..]);
      var u := t[1..];
      ThreeChars(u);
      assert e[3..] == Escape(t[2..]) && Unescape(e) == "</" + Unescape(e[3..]);
      assert t == "</" + t[2..] && u[1..] == t[2..];
      assert Occurs(t, ESCAPED) == Occurs(u, ESCAPED) == Occurs(u[1..], ESCAPED);
    } else if StartsWithAt(t, ESCAPED, 0) {
      KeepsOwnOpener(t);
    } else {
      RoundTrip(t[1..]);
      assert e[1..] == Escape(t[1..]) && Unescape(e) == [t[0]] + Unescape(e[1..]);
      assert t == [t[0]] + t[1..];
      var r := Unescape(e[1..]);
      assert ([t[0]] + r)[1..] == r;
    }
  }

  /** A text's own escaped opener is escaped to itself, and unescaped to a shorter text. */
  lemma {:induction false} KeepsOwnOpener(t: string)
    requires StartsWithAt(t, ESCAPED, 0)
    ensures |Unescape(Escape(t))| < |t|
    decreases |t|, 0
  {
    ThreeChars(t);
    var u, v, rest := t[1..], t[2..], t[3..];
    TwoChars(t, '<', '/');
    TwoChars(u, '<', '/');
    TwoChars(v, '<', '/');
    assert u[1..] == v && v[1..] == rest;
    assert Escape(v) == ['/'] + Escape(rest);
    assert Escape(u) == ['\\'] + Escape(v);
    assert Escape(t) == ['<'] + Escape(u);
    var e := Escape(t);
    EscapeStarts(t);
    assert e[3..] == Escape(rest);
    RoundTrip(rest);
  }

  // ---------------------------------------------------------------------
  // The envelope
  // ---------------------------------------------------------------------

  const SCRIPT: string := "<script"
  /** An opening script tag: it ends at its only `>`. */
  predicate IsTag(tag: string) {
    && |tag| > |SCRIPT| && StartsWithAt(tag, SCRIPT, 0) && tag[|tag| - 1] == '>'
    && forall k | 0 <= k < |tag| - 1 :: tag[k] != '>'
  }

  /** `wrap_opf_html` without a digest: what stands before the canonical block, title included, its
      opening tag, the escaped text, and what stands after it. */
  function Wrap(head: string, tag: string, text: string, tail: string): string {
    head + (tag + ("\n" + Escape(text) + "\n" + (CLOSER + tail)))
  }

  /** Where the first `needle` at or after `at` starts. */
  function Find(s: string, needle: string, at: nat): Option<nat>
    requires at <= |s|
    decreases |s| - at
  {
    if StartsWithAt(s, needle, at) then Some(at) else if at == |s| then None else Find(s, needle, at + 1)
  }

  lemma {:induction false} FindIs(s: string, needle: string, at: nat, k: nat)
    requires at <= k <= |s| && StartsWithAt(s, needle, k)
    requires forall j | at <= j < k :: !StartsWithAt(s, needle, j)
    ensures Find(s, needle, at) == Some(k)
    decreases k - at
  {
    if at < k { FindIs(s, needle, at + 1, k); }
  }

  lemma {:induction false} OccursAt(s: string, needle: string, k: nat)
    requires k <= |s| && StartsWithAt(s, needle, k)
    ensures Occurs(s, needle)
  {
    if k > 0 {
      assert s[1..][k - 1..k - 1 + |needle|] == s[k..k + |needle|];
      OccursAt(s[1..], needle, k - 1);
    }
  }

  /** The bodies of the script blocks whose opening tag is recognised, from `at` on: each runs to
      the first close tag after it. */
  function Blocks(s: string, recognised: string -> bool, at: nat): seq<string>
    requires at <= |s|
    decreases |s| - at
  {
    match Find(s, SCRIPT, at)
    case None => []
    case Some(start) =>
      if start < at || start >= |s| then []
      else
        match Find(s, ">", start)
        case None => []
        case Some(end) =>
          if end < start || end >= |s| then []
          else if !recognised(s[start..end + 1]) then Blocks(s, recognised, start + 1)
          else
            match Find(s, CLOSER, end + 1)
            case None => Blocks(s, recognised, start + 1)
            case Some(close) =>
              if close < end + 1 || close + |CLOSER| > |s| then []
              else [s[end + 1..close]] + Blocks(s, recognised, close + |CLOSER|)
  }

  /** `extract_opf_from_html`, up to parsing: the one block's body, stripped and unescaped. */
  function Extract(s: string, recognised: string -> bool): Option<string> {
    var blocks := Blocks(s, recognised, 0);
    if |blocks| == 1 then Some(Unescape(Strip(blocks[0]))) else None
  }

  // ---------------------------------------------------------------------
  // Extracting what was wrapped
  // ---------------------------------------------------------------------

  /** The opening tag starts where the head ends, and no other does before it. */
  lemma {:induction false} NoScriptBefore(head: string, rest: string, j: nat)
    requires !Occurs(head, SCRIPT) && StartsWithAt(rest, SCRIPT, 0) && j < |head|
    ensures !StartsWithAt(head + rest, SCRIPT, j)
  {
    var s := head + rest;
    if j + 7 <= |s| {
      if j + 7 <= |head| {
        assert s[j..j + 7] == head[j..j + 7];
        if StartsWithAt(head, SCRIPT, j) { OccursAt(head, SCRIPT, j); }
      } else {
        var at := |head| - j;
        assert rest[0] == rest[0..7][0] == '<';
        assert s[j..j + 7][at] == s[|head|] == rest[0];
        assert forall k | 0 < k < 7 :: SCRIPT[k] != '<';
        assert s[j..j + 7][at] != SCRIPT[at];
      }
    }
  }

  lemma {:induction false} NoCloserIn(body: string, rest: string, j: nat)
    requires !Occurs(body, "</") && j < |body| && body[|body| - 1] != '<'
    ensures !StartsWithAt(body + rest, CLOSER, j)
  {
    var s := body + rest;
    if j + 9 <= |s| && s[j..j + 9] == CLOSER {
      assert s[j..j + 9][0] == '<' && s[j..j + 9][1] == '/';
      if j + 1 < |body| {
        assert body[j..j + 2] == "</";
        OccursAt(body, "</", j);
      }
    }
  }

  /** The lines about the embedded text add no opener. */
  lemma {:induction false} PaddedHasNoClose(e: string)
    requires !Occurs(e, "</")
    ensures !Occurs("\n" + e + "\n", "</")
  {
    var p := "\n" + e + "\n";
    assert p[1..] == e + "\n";
    TwoChars(p, '<', '/');
    EndsWithNewline(e);
  }

  lemma {:induction false} EndsWithNewline(e: string)
    requires !Occurs(e, "</")
    ensures !Occurs(e + "\n", "</")
  {
    TwoChars(e, '<', '/');
    TwoChars(e + "\n", '<', '/');
    if e != "" {
      EndsWithNewline(e[1..]);
      assert (e + "\n")[1..] == e[1..] + "\n";
    } else {
      assert (e + "\n")[1..] == "";
    }
  }

  lemma {:induction false} StripParts(t: string) returns (a: string, b: string)
    ensures Blank(a) && Blank(b) && t == a + Strip(t) + b
  {
    var u := StripLeft(t);
    a := LeadingBlank(t);
    b := TrailingBlank(u);
    assert t == a + (Strip(t) + b);
  }

  lemma {:induction false} LeadingBlank(t: string) returns (a: string)
    ensures Blank(a) && t == a + StripLeft(t)
  {
    a := "";
    if t != "" && IsSpace(t[0]) {
      var rest := LeadingBlank(t[1..]);
      a := [t[0]] + rest;
    }
  }

  lemma {:induction false} TrailingBlank(t: string) returns (b: string)
    ensures Blank(b) && t == StripRight(t) + b
  {
    b := "";
    if t != "" && IsSpace(t[|t| - 1]) {
      var rest := TrailingBlank(t[..|t| - 1]);
      b := rest + [t[|t| - 1]];
    }
  }

  lemma {:induction false} EscapeBlankLeft(a: string, x: string)
    requires Blank(a)
    ensures Escape(a + x) == a + Escape(x)
  {
    if a == "" {
      assert a + x == x;
    } else {
      TwoChars(a + x, '<', '/');
      EscapeBlankLeft(a[1..], x);
      assert (a + x)[1..] == a[1..] + x && (a + x)[0] == a[0];
    }
  }

  lemma {:induction false} EscapeBlank(b: string)
    requires Blank(b)
    ensures Escape(b) == b
  {
    EscapeBlankLeft(b, "");
    assert b + "" == b;
  }

  lemma {:induction false} EscapeStep(t: string)
    requires t != ""
    ensures Escape(t) == if |t| >= 2 && t[0] == '<' && t[1] == '/' then ESCAPED + Escape(t[2..])
                         else [t[0]] + Escape(t[1..])
  {
    TwoChars(t, '<', '/');
  }

  lemma {:induction false} EscapeBlankRight(x: string, b: string)
    requires Blank(b)
    ensures Escape(x + b) == Escape(x) + b
    decreases |x|
  {
    hide Escape;
    if x == "" {
      assert x + b == b;
      EscapeBlank(x);
      EscapeBlank(b);
    } else if |x| >= 2 && x[0] == '<' && x[1] == '/' {
      EscapeBlankRight(x[2..], b);
      EscapePairBefore(x, b);
    } else {
      EscapeBlankRight(x[1..], b);
      assert b != "" ==> IsSpace(b[0]) && b[0] != '/';
      EscapeCharBefore(x, b);
    }
  }

  lemma {:induction false} EscapePairBefore(x: string, b: string)
    requires |x| >= 2 && x[0] == '<' && x[1] == '/' && Escape(x[2..] + b) == Escape(x[2..]) + b
    ensures Escape(x + b) == Escape(x) + b
  {
    hide Escape;
    EscapeStep(x);
    EscapeStep(x + b);
    assert (x + b)[2..] == x[2..] + b;
    AppendAssociates(ESCAPED, Escape(x[2..]), b);
  }

  lemma {:induction false} EscapeCharBefore(x: string, b: string)
    requires x != "" && !(|x| >= 2 && x[0] == '<' && x[1] == '/') && (b != "" ==> b[0] != '/')
    requires Escape(x[1..] + b) == Escape(x[1..]) + b
    ensures Escape(x + b) == Escape(x) + b
  {
    hide Escape;
    EscapeStep(x);
    EscapeStep(x + b);
    assert (x + b)[1..] == x[1..] + b;
    AppendAssociates([x[0]], Escape(x[1..]), b);
  }

  lemma {:induction false} EscapeLast(t: string)
    requires t != ""
    ensures Escape(t) != "" && Escape(t)[|Escape(t)| - 1] == t[|t| - 1]
    decreases |t|
  {
    TwoChars(t, '<', '/');
    if StartsWithAt(t, "</", 0) {
      if |t| > 2 { EscapeLast(t[2..]); }
    } else if |t| > 1 {
      EscapeLast(t[1..]);
    }
  }

  lemma {:induction false} OccursSomewhere(s: string, needle: string) returns (k: nat)
    requires Occurs(s, needle)
    ensures k <= |s| && StartsWithAt(s, needle, k)
  {
    k := 0;
    if !StartsWithAt(s, needle, 0) {
      var j := OccursSomewhere(s[1..], needle);
      k := j + 1;
      assert s[k..k + |needle|] == s[1..][j..j + |needle|];
    }
  }

  /** An escaped opener in a padded text is in what the padding surrounds: it holds no whitespace. */
  lemma {:induction false} OpenerInCore(a: string, core: string, b: string)
    requires Blank(a) && Blank(b)
    ensures Occurs(a + core + b, ESCAPED) <==> Occurs(core, ESCAPED)
  {
    hide Occurs;
    var text := a + core + b;
    assert forall i | 0 <= i < |text| ::
      text[i] == if i < |a| then a[i] else if i < |a| + |core| then core[i - |a|] else b[i - |a| - |core|];
    if Occurs(core, ESCAPED) {
      var k := OccursSomewhere(core, ESCAPED);
      assert text[|a| + k..|a| + k + 3] == core[k..k + 3];
      OccursAt(text, ESCAPED, |a| + k);
    }
    if Occurs(text, ESCAPED) {
      var k := OccursSomewhere(text, ESCAPED);
      var found := text[k..k + 3];
      assert found[0] == text[k] && found[2] == text[k + 2] && !IsSpace(found[0]) && !IsSpace(found[2]);
      assert |a| <= k && k + 3 <= |a| + |core|;
      assert core[k - |a|..k - |a| + 3] == found;
      OccursAt(core, ESCAPED, k - |a|);
    }
  }

  /** Stripping the embedded text and unescaping it strips the text, exactly when the text held no
      escaped opener of its own. */
  lemma {:induction false} StrippedRoundTrip(text: string)
    ensures Unescape(Strip(Escape(text))) == Strip(text) <==> !Occurs(text, ESCAPED)
  {
    var core := Strip(text);
    var a, b := StripParts(text);
    StrippedEnds(text);
    OpenerInCore(a, core, b);
    hide Occurs, Escape, Unescape, Strip;
    RoundTrip(core);
    EscapeBlankRight(a + core, b);
    EscapeBlankLeft(a, core);
    StripPadding(a, Escape(core), b);
    if core != "" {
      EscapeLast(core);
      StripKeepsInkedEnds(Escape(core));
    } else {
      StripBlank("");
    }
  }

  /** A wrapped page, whatever scripts that are not recognised follow its block, has one canonical block, and
      extracting it gives the stripped text back exactly when the text held no escaped opener of its own. */
  lemma {:induction false} ExtractWrapped(head: string, tag: string, text: string, tail: string,
      recognised: string -> bool)
    requires !Occurs(head, SCRIPT) && Silent(tail, recognised) && IsTag(tag) && recognised(tag)
    ensures Blocks(Wrap(head, tag, text, tail), recognised, 0) == ["\n" + Escape(text) + "\n"]
    ensures Extract(Wrap(head, tag, text, tail), recognised) == Some(Strip(text)) <==> !Occurs(text, ESCAPED)
  {
    hide Blocks, Strip, Unescape, Escape, Occurs, IsTag, Silent;
    OneBlock(head, tag, text, tail, recognised);
    var e := Escape(text);
    StripPadding("\n", e, "\n");
    StrippedRoundTrip(text);
  }

  lemma {:induction false} OneBlock(head: string, tag: string, text: string, tail: string, recognised: string -> bool)
    requires !Occurs(head, SCRIPT) && Silent(tail, recognised) && IsTag(tag) && recognised(tag)
    ensures Blocks(Wrap(head, tag, text, tail), recognised, 0) == ["\n" + Escape(text) + "\n"]
  {
    var body := "\n" + Escape(text) + "\n";
    EscapedHasNoClose(text);
    PaddedHasNoClose(Escape(text));
    hide Occurs, Escape, Blocks, IsTag, Silent;
    OneBlockOf(head, tag, body, tail, recognised);
  }

  lemma {:induction false} OneBlockOf(head: string, tag: string, body: string, tail: string, recognised: string -> bool)
    requires !Occurs(head, SCRIPT) && Silent(tail, recognised) && IsTag(tag) && recognised(tag)
    requires !Occurs(body, "</") && body != "" && body[|body| - 1] != '<'
    ensures Blocks(head + (tag + (body + (CLOSER + tail))), recognised, 0) == [body]
  {
    hide StartsWithAt, Blocks, Occurs, Silent;
    var s, h, end := head + (tag + (body + (CLOSER + tail))), |head|, |head| + |tag| - 1;
    var close := end + 1 + |body|;
    assert Find(s, SCRIPT, 0) == Some(h) && Find(s, ">", h) == Some(end)
      by { TagFound(head, tag, body + (CLOSER + tail)); }
    assert Find(s, CLOSER, end + 1) == Some(close) by { CloserFound(head, tag, body, tail); }
    assert s[h..end + 1] == tag && s[end + 1..close] == body by { Pieces(head, tag, body, CLOSER + tail); }
    assert close + |CLOSER| <= |s| && Blocks(s, recognised, close + |CLOSER|) == [] by {
      Assemble(head, tag, body, tail);
      NoBlockAfter(head + (tag + body) + CLOSER, tail, recognised);
    }
    hide Occurs, Find, Blocks, IsTag;
    FirstBlock(s, recognised, h, end, close);
  }

  lemma {:induction false} Assemble(head: string, tag: string, body: string, tail: string)
    ensures head + (tag + (body + (CLOSER + tail))) == (head + (tag + body) + CLOSER) + tail
    ensures |head + (tag + body) + CLOSER| == |head| + |tag| + |body| + |CLOSER|
  {
  }

  lemma {:induction false} Pieces(head: string, tag: string, body: string, rest: string)
    ensures var s, h, o := head + (tag + (body + rest)), |head|, |tag|;
            s[h + o..h + o + |body|] == body && s[h..h + o] == tag
  {
    var s, h, o := head + (tag + (body + rest)), |head|, |tag|;
    assert s[h..] == tag + (body + rest) && s[h + o..] == body + rest;
  }

  /** A recognised tag, and the first close tag after it, make one block. */
  lemma {:induction false} FirstBlock(s: string, recognised: string -> bool, start: nat, end: nat, close: nat)
    requires start <= end < close && close + |CLOSER| <= |s|
    requires Find(s, SCRIPT, 0) == Some(start) && Find(s, ">", start) == Some(end) && recognised(s[start..end + 1])
    requires Find(s, CLOSER, end + 1) == Some(close)
    ensures Blocks(s, recognised, 0) == [s[end + 1..close]] + Blocks(s, recognised, close + |CLOSER|)
  {
    hide Find;
  }

  lemma {:induction false} TagFound(head: string, tag: string, rest: string)
    requires !Occurs(head, SCRIPT) && IsTag(tag)
    ensures var s := head + (tag + rest);
            Find(s, SCRIPT, 0) == Some(|head|) && Find(s, ">", |head|) == Some(|head| + |tag| - 1)
  {
    var inner := tag + rest;
    var s, h := head + inner, |head|;
    assert inner[0..7] == tag[0..7] && s[h..h + 7] == inner[0..7];
    forall j | 0 <= j < h ensures !StartsWithAt(s, SCRIPT, j) { NoScriptBefore(head, inner, j); }
    FindIs(s, SCRIPT, 0, h);
    var end := h + |tag| - 1;
    assert s[h..] == inner && inner[..|tag|] == tag;
    forall j | h <= j < end ensures !StartsWithAt(s, ">", j) {
      assert s[j] == s[h..][j - h] == inner[..|tag|][j - h];
      assert s[j..j + 1][0] == s[j];
    }
    assert s[end] == s[h..][|tag| - 1] == inner[..|tag|][|tag| - 1];
    assert s[end..end + 1] == ">";
    FindIs(s, ">", h, end);
  }

  lemma {:induction false} CloserFound(head: string, tag: string, body: string, tail: string)
    requires !Occurs(body, "</") && body != "" && body[|body| - 1] != '<'
    ensures var s := head + (tag + (body + (CLOSER + tail)));
            Find(s, CLOSER, |head| + |tag|) == Some(|head| + |tag| + |body|)
  {
    hide Occurs;
    var inner := body + (CLOSER + tail);
    var s, at := head + (tag + inner), |head| + |tag|;
    assert s[at..] == inner;
    forall j | at <= j < at + |body| ensures !StartsWithAt(s, CLOSER, j) {
      NoCloserIn(body, CLOSER + tail, j - at);
      if j + 9 <= |s| { assert s[j..j + 9] == inner[j - at..j - at + 9]; }
    }
    assert s[at + |body|..at + |body| + 9] == CLOSER;
    FindIs(s, CLOSER, at, at + |body|);
  }

  /** No script tag of the text is recognised: none that starts anywhere in it and ends at its first `>`. */
  predicate Silent(t: string, recognised: string -> bool) {
    forall k, e | 0 <= k <= e < |t| :: OpensAt(t, k, e) ==> !recognised(t[k..e + 1])
  }

  predicate OpensAt(t: string, k: nat, e: nat)
    requires k <= e < |t|
  {
    StartsWithAt(t, SCRIPT, k) && t[e] == '>' && forall j | k <= j < e :: t[j] != '>'
  }

  lemma {:induction false} FoundFirst(s: string, needle: string, at: nat)
    requires at <= |s|
    ensures match Find(s, needle, at)
            case None => true
            case Some(k) =>
              at <= k <= |s| && StartsWithAt(s, needle, k) && forall j | at <= j < k :: !StartsWithAt(s, needle, j)
    decreases |s| - at
  {
    if !StartsWithAt(s, needle, at) && at < |s| { FoundFirst(s, needle, at + 1); }
  }

  lemma {:induction false} OneCharAt(s: string, c: char, at: nat)
    requires at < |s|
    ensures StartsWithAt(s, [c], at) <==> s[at] == c
  {
    assert s[at..at + 1] == [s[at]];
  }

  lemma {:induction false} SilentHasNone(s: string, recognised: string -> bool, at: nat)
    requires at <= |s|
    requires forall k, e | at <= k <= e < |s| :: OpensAt(s, k, e) ==> !recognised(s[k..e + 1])
    ensures Blocks(s, recognised, at) == []
    decreases |s| - at
  {
    FoundFirst(s, SCRIPT, at);
    match Find(s, SCRIPT, at) {
      case None =>
      case Some(start) =>
        if start < |s| {
          FoundFirst(s, ">", start);
          match Find(s, ">", start) {
            case None =>
            case Some(end) =>
              if end < |s| {
                forall j | start <= j <= end ensures StartsWithAt(s, ">", j) <==> s[j] == '>' { OneCharAt(s, '>', j); }
                assert OpensAt(s, start, end);
                SilentHasNone(s, recognised, start + 1);
              }
          }
        }
    }
  }

  lemma {:induction false} SilentBehind(before: string, tail: string, recognised: string -> bool, k: nat, e: nat)
    requires Silent(tail, recognised) && |before| <= k <= e < |before + tail| && OpensAt(before + tail, k, e)
    ensures !recognised((before + tail)[k..e + 1])
  {
    var s, n := before + tail, |before|;
    assert s[n..] == tail;
    assert s[k..k + 7] == tail[k - n..k - n + 7] && s[k..e + 1] == tail[k - n..e - n + 1];
    assert forall j | n <= j < |s| :: s[j] == tail[j - n];
    assert OpensAt(tail, k - n, e - n);
  }

  lemma {:induction false} NoBlockAfter(before: string, tail: string, recognised: string -> bool)
    requires Silent(tail, recognised)
    ensures Blocks(before + tail, recognised, |before|) == []
  {
    hide Silent, OpensAt;
    forall k, e | |before| <= k <= e < |before + tail| && OpensAt(before + tail, k, e)
      ensures !recognised((before + tail)[k..e + 1])
    {
      SilentBehind(before, tail, recognised, k, e);
    }
    SilentHasNone(before + tail, recognised, |before|);
  }
}
