/** What boundary trimming may change and what it may not: inserts only, end spaces only, and
    never the last space of a join. */
module BoundarySpaceFacts {
  import opened BoundarySpaces
  import opened ProvenPatch

  // ---------------------------------------------------------------------
  // Squeezing runs of ASCII spaces
  // ---------------------------------------------------------------------

  /** The first `k` characters with every run of ASCII spaces squeezed to one. */
  function SqueezedTo(s: string, k: nat): string
    requires k <= |s|
  {
    if k == 0 then ""
    else SqueezedTo(s, k - 1) + (if k > 1 && s[k - 1] == ' ' && s[k - 2] == ' ' then "" else [s[k - 1]])
  }

  function Squeezed(s: string): string {
    SqueezedTo(s, |s|)
  }

  lemma {:induction false} SqueezePrefix(x: string, y: string, k: nat)
    requires k <= |x|
    ensures SqueezedTo(x + y, k) == SqueezedTo(x, k)
  {
    if k > 0 { SqueezePrefix(x, y, k - 1); }
  }

  /** Texts that squeeze alike and end alike go on squeezing alike. */
  lemma {:induction false} SqueezeOnward(x: string, x': string, y: string, k: nat)
    requires k <= |y| && Squeezed(x) == Squeezed(x') && EndsSpaced(x) == EndsSpaced(x')
    ensures SqueezedTo(x + y, |x| + k) == SqueezedTo(x' + y, |x'| + k)
  {
    if k == 0 {
      SqueezePrefix(x, y, |x|);
      SqueezePrefix(x', y, |x'|);
    } else {
      SqueezeOnward(x, x', y, k - 1);
      LastBefore(x, y, k - 1);
      LastBefore(x', y, k - 1);
    }
  }

  /** Whether the character before position `|x| + k` of `x + y` is a space. */
  lemma {:induction false} LastBefore(x: string, y: string, k: nat)
    requires k < |y|
    ensures (x + y)[|x| + k] == y[k]
    ensures (|x| + k > 0 && (x + y)[|x| + k - 1] == ' ') <==> (if k > 0 then y[k - 1] == ' ' else EndsSpaced(x))
  {
  }

  lemma {:induction false} SqueezeAppend(x: string, x': string, y: string)
    requires Squeezed(x) == Squeezed(x') && EndsSpaced(x) == EndsSpaced(x')
    ensures Squeezed(x + y) == Squeezed(x' + y)
  {
    SqueezeOnward(x, x', y, |y|);
  }

  /** Spaces after a space squeeze away. */
  lemma {:induction false} SqueezeAbsorbs(x: string, sp: string, k: nat)
    requires EndsSpaced(x) && Spaces(sp) && k <= |sp|
    ensures SqueezedTo(x + sp, |x| + k) == Squeezed(x)
  {
    if k == 0 {
      SqueezePrefix(x, sp, |x|);
    } else {
      SqueezeAbsorbs(x, sp, k - 1);
      LastBefore(x, sp, k - 1);
    }
  }

  /** Spaces dropped beside a space that stays change nothing once squeezed. */
  lemma {:induction false} SqueezeAfter(x: string, sp: string, y: string)
    requires EndsSpaced(x) && Spaces(sp)
    ensures Squeezed(x + (sp + y)) == Squeezed(x + y)
  {
    SqueezeAbsorbs(x, sp, |sp|);
    SqueezeAppend(x + sp, x, y);
    assert x + (sp + y) == (x + sp) + y;
  }

  lemma {:induction false} SqueezeBefore(x: string, sp: string, y: string)
    requires StartsSpaced(y) && Spaces(sp)
    ensures Squeezed(x + (sp + y)) == Squeezed(x + y)
  {
    var z := x + " ";
    assert sp + " " == " " + sp;
    SqueezeAfter(z, sp, y[1..]);
    assert x + y == z + y[1..];
    assert x + (sp + y) == z + (sp + y[1..]) by {
      assert y == " " + y[1..];
      assert sp + (" " + y[1..]) == (sp + " ") + y[1..];
    }
  }

  lemma {:induction false} DropLeftDrops(s: string)
    ensures var r := DropLeft(s);
            |r| <= |s| && s[|s| - |r|..] == r && Spaces(s[..|s| - |r|]) && !StartsSpaced(r)
  {
    if StartsSpaced(s) {
      DropLeftDrops(s[1..]);
      var r := DropLeft(s);
      assert s[|s| - |r|..] == s[1..][|s| - 1 - |r|..];
      assert forall i | 0 < i < |s| - |r| :: s[i] == s[1..][i - 1];
    }
  }

  lemma {:induction false} DropRightDrops(s: string)
    ensures var r := DropRight(s);
            |r| <= |s| && s[..|r|] == r && Spaces(s[|r|..]) && !EndsSpaced(r)
  {
    if EndsSpaced(s) {
      DropRightDrops(s[..|s| - 1]);
      var r := DropRight(s);
      assert s[..|r|] == s[..|s| - 1][..|r|];
      assert forall i | |r| <= i < |s| - 1 :: s[i] == s[..|s| - 1][|r|..][i - |r|];
    }
  }

  // ---------------------------------------------------------------------
  // One trimming step
  // ---------------------------------------------------------------------

  /** The accepted text before piece `i`. */
  function JoinedTo(pieces: seq<Piece>, i: nat): string
    requires i <= |pieces|
  {
    if i == 0 then "" else JoinedTo(pieces, i - 1) + pieces[i - 1].text
  }

  lemma {:induction false} JoinSplits(pieces: seq<Piece>, i: nat)
    requires i <= |pieces|
    ensures JoinedFrom(pieces, 0) == JoinedTo(pieces, i) + JoinedFrom(pieces, i)
  {
    if i > 0 {
      JoinSplits(pieces, i - 1);
    }
  }

  lemma {:induction false} TrimLocalTo(pieces: seq<Piece>, r: seq<Piece>, i: nat, k: nat)
    requires k <= i < |pieces| && |r| == |pieces| && (forall j | 0 <= j < |pieces| && j != i :: r[j] == pieces[j])
    ensures JoinedTo(r, k) == JoinedTo(pieces, k)
  {
    if k > 0 { TrimLocalTo(pieces, r, i, k - 1); }
  }

  lemma {:induction false} TrimLocalFrom(pieces: seq<Piece>, r: seq<Piece>, i: nat, k: nat)
    requires i < k <= |pieces| && |r| == |pieces| && (forall j | 0 <= j < |pieces| && j != i :: r[j] == pieces[j])
    ensures JoinedFrom(r, k) == JoinedFrom(pieces, k)
    decreases |pieces| - k
  {
    if k < |pieces| { TrimLocalFrom(pieces, r, i, k + 1); }
  }

  lemma {:induction false} TrimStartSqueezes(before: string, previous: string, text: string, after: string)
    requires EndsSpaced(previous) ==> EndsSpaced(before)
    ensures Squeezed(before + (TrimStart(previous, text) + after)) == Squeezed(before + (text + after))
  {
    var left := TrimStart(previous, text);
    DropLeftDrops(text);
    if left != text {
      var sp := text[..|text| - |left|];
      SqueezeAfter(before, sp, left + after);
      assert text + after == sp + (left + after);
    }
  }

  lemma {:induction false} TrimEndSqueezes(before: string, text: string, following: string, after: string)
    requires StartsSpaced(following) ==> StartsSpaced(after)
    ensures Squeezed(before + (TrimEnd(text, following) + after)) == Squeezed(before + (text + after))
  {
    var t := TrimEnd(text, following);
    DropRightDrops(text);
    if t != text {
      var sp := text[|t|..];
      SqueezeBefore(before + t, sp, after);
      Regroup(before, t, sp, after);
      assert text == t + sp;
    }
  }

  lemma {:induction false} Regroup(a: string, b: string, c: string, d: string)
    ensures (a + b) + (c + d) == a + ((b + c) + d)
    ensures (a + b) + d == a + (b + d)
  {
  }

  /** A trimmed text is the authored one less spaces at an end whose neighbour has one. */
  lemma {:induction false} TrimTextSqueezes(before: string, previous: string, text: string, following: string,
      after: string)
    requires EndsSpaced(previous) ==> EndsSpaced(before)
    requires StartsSpaced(following) ==> StartsSpaced(after)
    ensures Squeezed(before + (TrimText(previous, text, following) + after)) == Squeezed(before + (text + after))
  {
    if !Spaces(text) {
      TrimStartSqueezes(before, previous, text, after);
      TrimEndSqueezes(before, TrimStart(previous, text), following, after);
    }
  }

  lemma {:induction false} TrimSqueezes(pieces: seq<Piece>, i: nat)
    requires i < |pieces|
    ensures Squeezed(JoinedFrom(Trim(pieces, i), 0)) == Squeezed(JoinedFrom(pieces, 0))
  {
    var r := Trim(pieces, i);
    JoinSplits(pieces, i);
    JoinSplits(r, i);
    TrimLocalTo(pieces, r, i, i);
    TrimLocalFrom(pieces, r, i, i + 1);
    if pieces[i].isInsert {
      TrimTextSqueezes(JoinedTo(pieces, i), TextAt(pieces, i - 1), pieces[i].text,
                       TextAt(pieces, i + 1), JoinedFrom(pieces, i + 1));
    }
  }

  // ---------------------------------------------------------------------
  // Settled boundaries
  // ---------------------------------------------------------------------

  /** Neither boundary of piece `i` doubles a space its insert could give up. */
  predicate SettledAt(pieces: seq<Piece>, i: nat)
    requires i < |pieces|
  {
    pieces[i].isInsert && !Spaces(pieces[i].text) ==>
      && !(EndsSpaced(TextAt(pieces, i - 1)) && StartsSpaced(pieces[i].text))
      && !(EndsSpaced(pieces[i].text) && StartsSpaced(TextAt(pieces, i + 1)))
  }

  /** `t` is `s[a..b]`, and only spaces were cut away. */
  predicate CutAt(s: string, t: string, a: nat, b: nat) {
    a <= b <= |s| && t == s[a..b] && Spaces(s[..a]) && Spaces(s[b..])
  }

  /** `t` is `s` less some spaces at its ends. */
  ghost predicate LessEndSpaces(s: string, t: string) {
    exists a: nat, b: nat :: CutAt(s, t, a, b)
  }

  lemma {:induction false} TrimStartEnds(previous: string, text: string)
    requires !Spaces(text)
    ensures var t := TrimStart(previous, text);
            && |t| <= |text| && t == text[|text| - |t|..] && Spaces(text[..|text| - |t|]) && !Spaces(t)
            && (StartsSpaced(t) ==> StartsSpaced(text)) && !(EndsSpaced(previous) && StartsSpaced(t))
  {
    DropLeftDrops(text);
    SpacesSplit(text, |text| - |TrimStart(previous, text)|);
  }

  lemma {:induction false} TrimEndEnds(text: string, following: string)
    requires !Spaces(text)
    ensures var t := TrimEnd(text, following);
            && |t| <= |text| && t == text[..|t|] && Spaces(text[|t|..]) && !Spaces(t)
            && (StartsSpaced(t) <==> StartsSpaced(text)) && !(EndsSpaced(t) && StartsSpaced(following))
  {
    DropRightDrops(text);
    SpacesSplit(text, |TrimEnd(text, following)|);
  }

  /** What trimming does to the ends of one text. */
  lemma {:induction false} TrimTextEnds(previous: string, text: string, following: string)
    ensures var t := TrimText(previous, text, following);
            && (StartsSpaced(t) ==> StartsSpaced(text))
            && (Spaces(t) <==> Spaces(text)) && (Spaces(text) ==> t == text)
            && (!Spaces(t)
              ==> !(EndsSpaced(previous) && StartsSpaced(t)) && !(EndsSpaced(t) && StartsSpaced(following)))
            && LessEndSpaces(text, t)
  {
    if Spaces(text) {
      assert CutAt(text, text, 0, |text|);
    } else {
      TrimStartEnds(previous, text);
      TrimEndEnds(TrimStart(previous, text), following);
      TrimTextCut(previous, text, following);
    }
  }

  lemma {:induction false} TrimTextCut(previous: string, text: string, following: string)
    requires !Spaces(text)
    ensures LessEndSpaces(text, TrimText(previous, text, following))
  {
    TrimStartEnds(previous, text);
    var left := TrimStart(previous, text);
    TrimEndEnds(left, following);
    var t := TrimEnd(left, following);
    var a := |text| - |left|;
    assert text[a..][|t|..] == text[a + |t|..];
    assert CutAt(text, t, a, a + |t|);
  }

  lemma {:induction false} SpacesSplit(s: string, k: nat)
    requires k <= |s|
    ensures Spaces(s) <==> Spaces(s[..k]) && Spaces(s[k..])
  {
    assert s == s[..k] + s[k..];
  }

  /** After `k` steps the first `k` boundaries are settled and the rest are as authored. */
  lemma {:induction false} CollapseSettles(pieces: seq<Piece>, k: nat)
    requires k <= |pieces|
    ensures forall i | 0 <= i < k :: SettledAt(CollapsedTo(pieces, k), i)
    ensures forall i | k <= i < |pieces| :: CollapsedTo(pieces, k)[i] == pieces[i]
  {
    if k > 0 {
      CollapseSettles(pieces, k - 1);
      var p := CollapsedTo(pieces, k - 1);
      var r := CollapsedTo(pieces, k);
      TrimTextEnds(TextAt(p, k - 2), p[k - 1].text, TextAt(p, k));
      forall i | 0 <= i < k ensures SettledAt(r, i) {
        TrimKeepsSettled(p, k - 1, i);
      }
    }
  }

  lemma {:induction false} TrimKeepsSettled(p: seq<Piece>, k: nat, i: nat)
    requires i <= k < |p| && (i < k ==> SettledAt(p, i))
    ensures SettledAt(Trim(p, k), i)
  {
    TrimTextEnds(TextAt(p, k - 1), p[k].text, TextAt(p, k + 1));
    ReplaceKeepsSettled(p, k, TrimmedText(p, k), i);
  }

  lemma {:induction false} ReplaceKeepsSettled(p: seq<Piece>, k: nat, text: string, i: nat)
    requires i <= k < |p| && (i < k ==> SettledAt(p, i))
    requires StartsSpaced(text) ==> StartsSpaced(p[k].text)
    requires p[k].isInsert && !Spaces(text) ==>
      !(EndsSpaced(TextAt(p, k - 1)) && StartsSpaced(text)) && !(EndsSpaced(text) && StartsSpaced(TextAt(p, k + 1)))
    ensures SettledAt(p[k := Piece(p[k].isInsert, text)], i)
  {
  }

  /** A settled boundary is left alone. */
  lemma {:induction false} SettledStays(pieces: seq<Piece>, k: nat)
    requires k <= |pieces| && forall i | 0 <= i < |pieces| :: SettledAt(pieces, i)
    ensures CollapsedTo(pieces, k) == pieces
  {
    if k > 0 {
      SettledStays(pieces, k - 1);
      assert SettledAt(pieces, k - 1);
    }
  }

  // ---------------------------------------------------------------------
  // The rule as promised
  // ---------------------------------------------------------------------

  /** Collapsing twice is collapsing once. */
  lemma {:induction false} CollapseIdempotent(pieces: seq<Piece>)
    ensures Collapsed(Collapsed(pieces)) == Collapsed(pieces)
  {
    CollapseSettles(pieces, |pieces|);
    SettledStays(Collapsed(pieces), |pieces|);
  }

  lemma {:induction false} CollapseSqueezes(pieces: seq<Piece>, k: nat)
    requires k <= |pieces|
    ensures Squeezed(JoinedFrom(CollapsedTo(pieces, k), 0)) == Squeezed(JoinedFrom(pieces, 0))
  {
    if k > 0 {
      CollapseSqueezes(pieces, k - 1);
      TrimSqueezes(CollapsedTo(pieces, k - 1), k - 1);
    }
  }

  /** The delivered text is the authored final text up to the length of runs of ASCII spaces:
      no join loses its last space, and nothing else moves. */
  lemma {:induction false} DeliveredIsAuthoredSqueezed(ops: seq<ProvenOp>)
    ensures Squeezed(JoinedFrom(Collapsed(Pieces(ops)), 0)) == Squeezed(FinalFrom(ops, 0))
  {
    FinalIsJoined(ops, 0);
    CollapseSqueezes(Pieces(ops), |Pieces(ops)|);
  }

  /** Only inserts change, and only by losing spaces at their ends; an insert of nothing but
      spaces is left as authored. */
  lemma {:induction false} CollapseTrimsEnds(pieces: seq<Piece>, k: nat, i: nat)
    requires k <= |pieces| && i < |pieces|
    ensures var t, authored := CollapsedTo(pieces, k)[i], pieces[i];
            && t.isInsert == authored.isInsert
            && (!authored.isInsert || Spaces(authored.text) ==> t == authored)
            && LessEndSpaces(authored.text, t.text)
  {
    if k == 0 {
      assert CutAt(pieces[i].text, pieces[i].text, 0, |pieces[i].text|);
    } else {
      hide Trim, LessEndSpaces, Spaces;
      CollapseTrimsEnds(pieces, k - 1, i);
      if i == k - 1 {
        CollapseSettles(pieces, k - 1);
        OneTrim(CollapsedTo(pieces, k - 1), i);
      }
    }
  }

  lemma {:induction false} OneTrim(p: seq<Piece>, i: nat)
    requires i < |p|
    ensures Trim(p, i)[i].isInsert == p[i].isInsert && LessEndSpaces(p[i].text, Trim(p, i)[i].text)
    ensures !p[i].isInsert || Spaces(p[i].text) ==> Trim(p, i)[i] == p[i]
  {
    TrimTextEnds(TextAt(p, i - 1), p[i].text, TextAt(p, i + 1));
    assert CutAt(p[i].text, p[i].text, 0, |p[i].text|);
  }

  // ---------------------------------------------------------------------
  // Exactly what is cut
  // ---------------------------------------------------------------------

  /** The text is cut to `[a, b)`: at its start exactly past all its spaces when the text before ends in one,
      and at its end when the text after starts with one. */
  predicate CutBetween(text: string, cut: string, spacedBefore: bool, spacedAfter: bool, a: nat, b: nat) {
    && CutAt(text, cut, a, b)
    && (if spacedBefore then !StartsSpaced(cut) else a == 0)
    && (if spacedAfter then !EndsSpaced(cut) else b == |text|)
  }

  ghost predicate CutSomewhere(text: string, cut: string, spacedBefore: bool, spacedAfter: bool) {
    exists a: nat, b: nat :: CutBetween(text, cut, spacedBefore, spacedAfter, a, b)
  }

  /** After trimming, whatever is not an insert, or is one of spaces alone, is as authored; any other insert has
      lost its leading spaces exactly when the piece before it, itself trimmed, ends in a space, and its
      trailing ones exactly when the piece after it, as authored, starts with one. */
  lemma {:induction false} CollapsedExactly(pieces: seq<Piece>, i: nat)
    requires i < |pieces|
    ensures var r := Collapsed(pieces);
            && r[i].isInsert == pieces[i].isInsert
            && if !pieces[i].isInsert || Spaces(pieces[i].text) then r[i] == pieces[i]
               else CutSomewhere(pieces[i].text, r[i].text, i > 0 && EndsSpaced(r[i - 1].text),
                 i + 1 < |pieces| && StartsSpaced(pieces[i + 1].text))
  {
    CollapseTrimsEnds(pieces, |pieces|, i);
    LaterKept(pieces, i + 1, |pieces|, i);
    if i > 0 {
      LaterKept(pieces, i, |pieces|, i - 1);
      LaterKept(pieces, i, i + 1, i - 1);
    }
    CollapseSettles(pieces, i);
    var p := CollapsedTo(pieces, i);
    if pieces[i].isInsert && !Spaces(pieces[i].text) {
      var before, after := if i > 0 then p[i - 1].text else "", if i + 1 < |p| then p[i + 1].text else "";
      assert before == TextAt(p, i - 1) && after == TextAt(p, i + 1);
      assert CollapsedTo(pieces, i + 1)[i].text == TrimText(before, pieces[i].text, after);
      TrimTextCutBetween(before, pieces[i].text, after);
      assert EndsSpaced(before) <==> i > 0 && EndsSpaced(Collapsed(pieces)[i - 1].text);
      assert StartsSpaced(after) <==> i + 1 < |pieces| && StartsSpaced(pieces[i + 1].text);
    }
  }

  lemma {:induction false} LaterKept(pieces: seq<Piece>, k: nat, n: nat, i: nat)
    requires i < k <= n <= |pieces|
    ensures CollapsedTo(pieces, n)[i] == CollapsedTo(pieces, k)[i]
    decreases n
  {
    if k < n { LaterKept(pieces, k, n - 1, i); }
  }

  lemma {:induction false} TrimTextCutBetween(previous: string, text: string, following: string)
    requires !Spaces(text)
    ensures CutSomewhere(text, TrimText(previous, text, following), EndsSpaced(previous), StartsSpaced(following))
  {
    TrimStartEnds(previous, text);
    var left := TrimStart(previous, text);
    TrimEndEnds(left, following);
    var t := TrimEnd(left, following);
    var a := |text| - |left|;
    assert text[a..][|t|..] == text[a + |t|..];
    assert CutAt(text, t, a, a + |t|);
    assert CutBetween(text, t, EndsSpaced(previous), StartsSpaced(following), a, a + |t|);
  }
}
