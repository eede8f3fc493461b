/** Opaque aliases for past deals (`alias_map`, `resolution_map`, `alias_digest`,
    `scripts/deal_aliases.py`). The deals come in whatever order their hashes give. */
module DealAliases {
  import opened Prelude
  import opened Boundaries

  const ALIAS_STEM: string := "deal"

  // ---------------------------------------------------------------------
  // The stem
  // ---------------------------------------------------------------------

  predicate ClashesWith(folded: string, stem: string) {
    StartsWith(folded, stem + "-") || folded == stem
  }

  predicate Clashes(folded: seq<string>, stem: string) {
    exists i | 0 <= i < |folded| :: ClashesWith(folded[i], stem)
  }

  /** The stem with `n` letters added. */
  function Stem(n: nat): string {
    if n == 0 then ALIAS_STEM else Stem(n - 1) + "x"
  }

  lemma {:induction false} StemLength(n: nat)
    ensures |Stem(n)| == |ALIAS_STEM| + n
  {
    if n > 0 { StemLength(n - 1); }
  }

  function Longest(slugs: seq<string>): nat {
    if slugs == [] then 0
    else
      var rest := Longest(slugs[1..]);
      if |slugs[0]| > rest then |slugs[0]| else rest
  }

  lemma {:induction false} NoneLonger(slugs: seq<string>, i: nat)
    requires i < |slugs|
    ensures |slugs[i]| <= Longest(slugs)
  {
    if i > 0 { NoneLonger(slugs[1..], i - 1); }
  }

  lemma {:induction false} ClashIsShort(folded: seq<string>, stem: string)
    requires Clashes(folded, stem)
    ensures |stem| <= Longest(folded)
  {
    var i :| 0 <= i < |folded| && ClashesWith(folded[i], stem);
    NoneLonger(folded, i);
  }

  /** `alias_map`'s stem loop: the shortest lengthening no slug clashes with. */
  method FindStem(folded: seq<string>) returns (stem: string, ghost added: nat)
    ensures stem == Stem(added) && !Clashes(folded, stem)
    ensures forall k | 0 <= k < added :: Clashes(folded, Stem(k))
  {
    hide Clashes;
    stem, added := ALIAS_STEM, 0;
    while Clashes(folded, stem)
      invariant stem == Stem(added) && forall k | 0 <= k < added :: Clashes(folded, Stem(k))
      decreases Longest(folded) + 1 - |stem|
    {
      ClashIsShort(folded, stem);
      stem, added := stem + "x", added + 1;
    }
  }

  // ---------------------------------------------------------------------
  // The aliases
  // ---------------------------------------------------------------------

  function Width(count: nat): nat {
    if |Decimal(count)| > 2 then |Decimal(count)| else 2
  }

  function Alias(stem: string, width: nat, index: nat): string {
    stem + "-" + Padded(index, width)
  }

  predicate Distinct(slugs: seq<string>) {
    forall i, j | 0 <= i < j < |slugs| :: slugs[i] != slugs[j]
  }

  /** Slug by slug, the alias at its place in the order. */
  ghost predicate Maps(slugs: seq<string>, stem: string, aliases: map<string, string>) {
    && (forall slug :: slug in aliases <==> slug in slugs)
    && forall i | 0 <= i < |slugs| :: slugs[i] in aliases && aliases[slugs[i]] == Alias(stem, Width(|slugs|), i + 1)
  }

  method AliasMap(ordered: seq<string>) returns (aliases: map<string, string>, stem: string)
    requires Distinct(ordered)
    ensures Maps(ordered, stem, aliases) && !Clashes(LowerAll(ordered), stem)
    ensures exists n :: stem == Stem(n)
  {
    hide Alias, Clashes;
    ghost var n;
    stem, n := FindStem(LowerAll(ordered));
    aliases := map[];
    for i := 0 to |ordered|
      invariant forall slug :: slug in aliases <==> slug in ordered[..i]
      invariant forall j | 0 <= j < i ::
        ordered[j] in aliases && aliases[ordered[j]] == Alias(stem, Width(|ordered|), j + 1)
    {
      assert ordered[..i + 1] == ordered[..i] + [ordered[i]];
      aliases := aliases[ordered[i] := Alias(stem, Width(|ordered|), i + 1)];
    }
    assert ordered[..|ordered|] == ordered;
  }

  function LowerAll(slugs: seq<string>): seq<string> {
    seq(|slugs|, i requires 0 <= i < |slugs| => Lower(slugs[i]))
  }

  /** No two deals share an alias. */
  lemma {:induction false} AliasesDistinct(stem: string, width: nat, i: nat, j: nat)
    requires Alias(stem, width, i) == Alias(stem, width, j)
    ensures i == j
  {
    hide Padded;
    var prefix := stem + "-";
    assert Alias(stem, width, i)[|prefix|..] == Padded(i, width)
      && Alias(stem, width, j)[|prefix|..] == Padded(j, width);
    PaddedInjective(i, j, width);
  }

  /** Every letter of the stem is lower case already. */
  lemma {:induction false} StemIsLower(n: nat, k: nat)
    requires k < |Stem(n)|
    ensures Stem(n)[k] in "dealx"
  {
    if n > 0 && k < |Stem(n - 1)| { StemIsLower(n - 1, k); }
  }

  /** A slug that begins with an alias clashes with the stem once folded. */
  lemma {:induction false} AliasPrefixClashes(slug: string, stem: string, n: nat, width: nat, index: nat)
    requires stem == Stem(n) && StartsWith(slug, Alias(stem, width, index))
    ensures ClashesWith(Lower(slug), stem)
  {
    hide Padded;
    var alias, prefix := Alias(stem, width, index), stem + "-";
    var m := |prefix|;
    assert alias[..m] == prefix && slug[0..|alias|] == alias;
    forall k | 0 <= k < m ensures Lower(slug)[k] == prefix[k] {
      if k < |stem| { StemIsLower(n, k); }
      assert slug[k] == slug[0..|alias|][k] == alias[k] == alias[..m][k];
    }
    assert Lower(slug)[0..m] == prefix;
  }

  /** No slug is an alias or begins with one, however it is cased. */
  lemma {:induction false} NoSlugIsAnAlias(slugs: seq<string>, stem: string, n: nat, width: nat, i: nat, index: nat)
    requires stem == Stem(n) && !Clashes(LowerAll(slugs), stem) && i < |slugs|
    ensures !StartsWith(slugs[i], Alias(stem, width, index)) && slugs[i] != Alias(stem, width, index)
  {
    hide Padded, Alias, ClashesWith, Stem;
    assert LowerAll(slugs)[i] == Lower(slugs[i]);
    if StartsWith(slugs[i], Alias(stem, width, index)) { AliasPrefixClashes(slugs[i], stem, n, width, index); }
    StartsWithItself(Alias(stem, width, index));
  }

  lemma {:induction false} StartsWithItself(s: string)
    ensures StartsWith(s, s)
  {
    assert s[0..|s|] == s;
  }

  lemma {:induction false} DecimalDigits(n: nat, k: nat)
    requires k < |Decimal(n)|
    ensures '0' <= Decimal(n)[k] <= '9'
  {
    if n >= 10 && k < |Decimal(n)| - 1 { DecimalDigits(n / 10, k); }
  }

  lemma {:induction false} PaddedDigits(n: nat, width: nat, k: nat)
    requires k < |Padded(n, width)|
    ensures '0' <= Padded(n, width)[k] <= '9'
  {
    var d := Decimal(n);
    if |d| >= width { DecimalDigits(n, k); } else if k >= width - |d| { DecimalDigits(n, k - (width - |d|)); }
  }

  /** The one dash of an alias is behind its stem. */
  lemma {:induction false} OneDash(stem: string, n: nat, width: nat, index: nat, k: nat)
    requires stem == Stem(n) && k < |Alias(stem, width, index)|
    ensures Alias(stem, width, index)[k] == '-' <==> k == |stem|
  {
    hide Padded, Stem;
    if k < |stem| { StemIsLower(n, k); } else if k > |stem| { PaddedDigits(index, width, k - |stem| - 1); }
  }

  /** No slug stands as a word of an alias either: none is the stem, however it is cased. */
  lemma {:induction false} NoAliasHoldsASlug(slugs: seq<string>, stem: string, n: nat, width: nat, i: nat, index: nat)
    requires stem == Stem(n) && !Clashes(LowerAll(slugs), stem) && i < |slugs|
    ensures !StartsWith(Alias(stem, width, index), Lower(slugs[i]) + "-")
  {
    hide Padded, Stem;
    var alias, slug := Alias(stem, width, index), Lower(slugs[i]);
    assert LowerAll(slugs)[i] == slug && !ClashesWith(slug, stem) && alias[..|stem|] == stem;
    if StartsWith(alias, slug + "-") {
      PrefixEnds(alias, slug);
      OneDash(stem, n, width, index, |slug|);
    }
  }

  lemma {:induction false} PrefixEnds(alias: string, slug: string)
    requires StartsWith(alias, slug + "-")
    ensures |slug| < |alias| && alias[|slug|] == '-' && alias[..|slug|] == slug
  {
    var k := |slug|;
    assert alias[k] == alias[0..k + 1][k] && alias[..k] == alias[0..k + 1][..k];
  }

  lemma {:induction false} DecimalGrows(m: nat, n: nat)
    requires m <= n
    ensures |Decimal(m)| <= |Decimal(n)|
  {
    if m >= 10 { DecimalGrows(m / 10, n / 10); }
  }

  /** The aliases of one document are of one length, two digits at the least. */
  lemma {:induction false} AliasesAlign(stem: string, count: nat, index: nat)
    requires 1 <= index <= count
    ensures |Alias(stem, Width(count), index)| == |stem| + 1 + if count < 10 then 2 else |Decimal(count)|
  {
    DecimalGrows(index, count);
    if count >= 10 { DecimalGrows(10, count); }
  }

  // ---------------------------------------------------------------------
  // Aliasing a digest
  // ---------------------------------------------------------------------

  /** `alias_digest`: every `document_id` that is a key becomes its alias; nothing else changes. */
  function AliasDigest(value: Json, aliases: map<string, string>): Json
    decreases value, 1
  {
    match value
    case JObj(fields) =>
      JObj(map name | name in fields :: AliasField(name, AliasDigest(fields[name], aliases), aliases))
    case JList(items) => JList(AliasItems(items, aliases))
    case _ => value
  }

  function AliasItems(items: seq<Json>, aliases: map<string, string>): seq<Json>
    decreases items, 0
  {
    if items == [] then [] else [AliasDigest(items[0], aliases)] + AliasItems(items[1..], aliases)
  }

  function AliasField(name: string, value: Json, aliases: map<string, string>): Json {
    if name == "document_id" && value.JStr? && value.text in aliases then JStr(aliases[value.text]) else value
  }

  /** Some `document_id` in the value is spelled as one of these names. */
  ghost predicate Mentions(value: Json, names: set<string>)
    decreases value, 1
  {
    match value
    case JObj(fields) =>
      exists name | name in fields :: FieldMentions(name, fields[name], names) || Mentions(fields[name], names)
    case JList(items) => AnyMentions(items, names)
    case _ => false
  }

  ghost predicate AnyMentions(items: seq<Json>, names: set<string>)
    decreases items, 0
  {
    items != [] && (Mentions(items[0], names) || AnyMentions(items[1..], names))
  }

  predicate FieldMentions(name: string, value: Json, names: set<string>) {
    name == "document_id" && value.JStr? && value.text in names
  }

  /** `resolution_map`: the aliases read backwards. */
  ghost predicate Resolves(aliases: map<string, string>, resolution: map<string, string>) {
    && (forall slug | slug in aliases :: aliases[slug] in resolution && resolution[aliases[slug]] == slug)
    && (forall alias | alias in resolution :: resolution[alias] in aliases && aliases[resolution[alias]] == alias)
    && (forall alias | alias in resolution :: alias !in aliases)
  }

  /** Aliasing a digest and resolving it gives the digest back exactly when none of its document ids
      was spelled as an alias to begin with. */
  lemma {:induction false} DigestRoundTrip(value: Json, aliases: map<string, string>, resolution: map<string, string>)
    requires Resolves(aliases, resolution)
    ensures AliasDigest(AliasDigest(value, aliases), resolution) == value <==> !Mentions(value, resolution.Keys)
    decreases value, 1
  {
    match value {
      case JObj(fields) =>
        forall name | name in fields
          ensures AliasDigest(AliasDigest(fields[name], aliases), resolution) == fields[name]
            <==> !Mentions(fields[name], resolution.Keys)
        {
          DigestRoundTrip(fields[name], aliases, resolution);
        }
        FieldsRoundTrip(fields, aliases, resolution);
      case JList(items) => ItemsRoundTrip(items, aliases, resolution);
      case _ =>
    }
  }

  lemma {:induction false} ItemsRoundTrip(items: seq<Json>, aliases: map<string, string>,
      resolution: map<string, string>)
    requires Resolves(aliases, resolution)
    ensures AliasItems(AliasItems(items, aliases), resolution) == items <==> !AnyMentions(items, resolution.Keys)
    decreases items, 0
  {
    if items != [] {
      DigestRoundTrip(items[0], aliases, resolution);
      ItemsRoundTrip(items[1..], aliases, resolution);
      hide AliasDigest, Mentions, Resolves;
      var once := AliasItems(items, aliases);
      assert once[0] == AliasDigest(items[0], aliases) && once[1..] == AliasItems(items[1..], aliases);
      var twice := AliasItems(once, resolution);
      assert twice == [AliasDigest(once[0], resolution)] + AliasItems(once[1..], resolution);
      assert items == [items[0]] + items[1..];
      assert twice == items <==> twice[0] == items[0] && twice[1..] == items[1..];
    }
  }

  /** What one field becomes, there and back. */
  lemma {:induction false} FieldRoundTrip(name: string, value: Json, aliases: map<string, string>,
      resolution: map<string, string>)
    requires Resolves(aliases, resolution)
    requires AliasDigest(AliasDigest(value, aliases), resolution) == value <==> !Mentions(value, resolution.Keys)
    ensures AliasField(name, AliasDigest(AliasField(name, AliasDigest(value, aliases), aliases), resolution),
      resolution) == value
      <==> !FieldMentions(name, value, resolution.Keys) && !Mentions(value, resolution.Keys)
  {
    if value.JStr? {
      assert AliasDigest(value, aliases) == value;
    } else {
      assert !AliasDigest(value, aliases).JStr?;
    }
  }

  lemma {:induction false} FieldsRoundTrip(fields: map<string, Json>, aliases: map<string, string>,
      resolution: map<string, string>)
    requires Resolves(aliases, resolution)
    requires forall name | name in fields ::
      AliasDigest(AliasDigest(fields[name], aliases), resolution) == fields[name]
      <==> !Mentions(fields[name], resolution.Keys)
    ensures AliasDigest(AliasDigest(JObj(fields), aliases), resolution) == JObj(fields)
      <==> !Mentions(JObj(fields), resolution.Keys)
  {
    var once := AliasDigest(JObj(fields), aliases).fields;
    var twice := AliasDigest(JObj(once), resolution).fields;
    forall name | name in fields
      ensures twice[name] == fields[name]
        <==> !FieldMentions(name, fields[name], resolution.Keys) && !Mentions(fields[name], resolution.Keys)
    {
      assert once[name] == AliasField(name, AliasDigest(fields[name], aliases), aliases);
      assert twice[name] == AliasField(name, AliasDigest(once[name], resolution), resolution);
      FieldRoundTrip(name, fields[name], aliases, resolution);
    }
    assert twice.Keys == once.Keys == fields.Keys;
    assert twice == fields <==> forall name | name in fields :: twice[name] == fields[name];
  }

  /** `resolution_map`. */
  method ResolutionMap(slugs: seq<string>, ghost stem: string, aliases: map<string, string>)
      returns (resolution: map<string, string>)
    requires Maps(slugs, stem, aliases)
    ensures Inverse(aliases, resolution)
  {
    hide Alias;
    resolution := map[];
    for i := 0 to |slugs|
      invariant forall j | 0 <= j < i :: aliases[slugs[j]] in resolution
      invariant forall alias | alias in resolution ::
        resolution[alias] in aliases && aliases[resolution[alias]] == alias
    {
      resolution := resolution[aliases[slugs[i]] := slugs[i]];
    }
    forall slug | slug in aliases ensures aliases[slug] in resolution {
      var i :| 0 <= i < |slugs| && slugs[i] == slug;
    }
  }

  ghost predicate Inverse(aliases: map<string, string>, resolution: map<string, string>) {
    && (forall slug | slug in aliases :: aliases[slug] in resolution)
    && (forall alias | alias in resolution :: resolution[alias] in aliases && aliases[resolution[alias]] == alias)
  }

  /** The aliases `alias_map` makes can always be read backwards: an alias resolves to the one deal
      it stands for, and is no deal's own name. */
  lemma {:induction false} AliasesResolve(slugs: seq<string>, stem: string, n: nat, aliases: map<string, string>,
      resolution: map<string, string>)
    requires Distinct(slugs) && stem == Stem(n) && !Clashes(LowerAll(slugs), stem)
    requires Maps(slugs, stem, aliases) && Inverse(aliases, resolution)
    ensures Resolves(aliases, resolution)
  {
    hide Alias, Clashes, Stem, LowerAll;
    forall s, t | s in aliases && t in aliases && aliases[s] == aliases[t] ensures s == t {
      var i :| 0 <= i < |slugs| && slugs[i] == s;
      var j :| 0 <= j < |slugs| && slugs[j] == t;
      AliasesDistinct(stem, Width(|slugs|), i + 1, j + 1);
    }
    forall s | s in aliases ensures aliases[s] !in aliases {
      var i :| 0 <= i < |slugs| && slugs[i] == s;
      if aliases[s] in slugs {
        var j :| 0 <= j < |slugs| && slugs[j] == aliases[s];
        NoSlugIsAnAlias(slugs, stem, n, Width(|slugs|), j, i + 1);
      }
    }
  }
}
