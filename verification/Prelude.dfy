/** Small vocabulary shared by the modules: optional values and results, JSON values, whitespace
    and stripping as Python has them, substrings, lists of results taken one at a time, and the
    two decimal renderings that keys and ids are built from: plain (`%d`) and padded with zeros
    (`%04d`). Nothing here knows about documents, transcripts or ledgers; every other module
    builds on it, directly or through another. */
module Prelude {

  datatype Option<+T> = None | Some(value: T)

  datatype Result<+T, +E> = Ok(value: T) | Err(error: E)

  /** A decoded JSON value, as the review passes hand one another. */
  datatype Json =
    | JNull
    | JBool(flag: bool)
    | JNum(number: int)
    | JStr(text: string)
    | JList(items: seq<Json>)
    | JObj(fields: map<string, Json>)
  {
    /** `value.get(name)`: absent fields and non-objects read as null. */
    function Get(name: string): Json {
      if JObj? && name in fields then fields[name] else JNull
    }
  }

  /** A set of character codes, as a list of inclusive ranges. */
  datatype Codes = Nowhere | Range(first: int, last: int, rest: Codes)

  predicate Within(code: int, codes: Codes) {
    codes.Range? && (codes.first <= code <= codes.last || Within(code, codes.rest))
  }

  const WIDE_SPACES: Codes :=
    Range(0x85, 0x85, Range(0xA0, 0xA0, Range(0x1680, 0x1680, Range(0x2000, 0x200A,
    Range(0x2028, 0x2029, Range(0x202F, 0x202F, Range(0x205F, 0x205F, Range(0x3000, 0x3000, Nowhere))))))))

  /** The characters Python's `str.isspace` accepts. */
  predicate IsSpace(c: char) {
    var n := c as int;
    if n < 0x80 then 9 <= n <= 13 || 28 <= n <= 32 else Within(n, WIDE_SPACES)
  }

  predicate Blank(s: string) {
    forall i | 0 <= i < |s| :: IsSpace(s[i])
  }

  /** `s.strip()`. */
  function Strip(s: string): (r: string) {
    StripRight(StripLeft(s))
  }

  function StripLeft(s: string): (r: string) {
    if s != "" && IsSpace(s[0]) then StripLeft(s[1..]) else s
  }

  function StripRight(s: string): (r: string) {
    if s != "" && IsSpace(s[|s| - 1]) then StripRight(s[..|s| - 1]) else s
  }

  lemma {:induction false} StripLeftBlank(a: string, x: string)
    requires Blank(a)
    ensures StripLeft(a + x) == StripLeft(x)
  {
    if a == "" { assert a + x == x; } else {
      StripLeftBlank(a[1..], x);
      assert (a + x)[1..] == a[1..] + x;
    }
  }

  lemma {:induction false} StripLeftAppend(x: string, y: string)
    requires !Blank(x)
    ensures StripLeft(x + y) == StripLeft(x) + y
  {
    if IsSpace(x[0]) {
      assert forall i | 0 <= i < |x[1..]| :: x[1..][i] == x[i + 1];
      StripLeftAppend(x[1..], y);
      assert (x + y)[1..] == x[1..] + y;
    }
  }

  lemma {:induction false} StripRightBlank(x: string, b: string)
    requires Blank(b)
    ensures StripRight(x + b) == StripRight(x)
  {
    if b == "" { assert x + b == x; } else {
      var c := b[..|b| - 1];
      StripRightBlank(x, c);
      assert (x + b)[..|x + b| - 1] == x + c;
    }
  }

  lemma {:induction false} StripBlank(b: string)
    requires Blank(b)
    ensures Strip(b) == ""
  {
    assert b + "" == b;
    StripLeftBlank(b, "");
  }

  /** Whitespace around a text is not part of its stripped form. */
  lemma {:induction false} StripPadding(a: string, x: string, b: string)
    requires Blank(a) && Blank(b)
    ensures Strip(a + x + b) == Strip(x)
  {
    if Blank(x) {
      StripBlank(a + x + b);
      StripBlank(x);
    } else {
      assert a + x + b == a + (x + b);
      StripLeftBlank(a, x + b);
      StripLeftAppend(x, b);
      StripRightBlank(StripLeft(x), b);
    }
  }

  lemma {:induction false} StripRightPrefix(x: string)
    ensures StripRight(x) <= x
  {
    if x != "" && IsSpace(x[|x| - 1]) { StripRightPrefix(x[..|x| - 1]); }
  }

  lemma {:induction false} StripRightAppend(x: string, y: string)
    requires !Blank(y)
    ensures StripRight(x + y) == x + StripRight(y)
  {
    if IsSpace(y[|y| - 1]) {
      assert y == y[..|y| - 1] + [y[|y| - 1]];
      StripRightAppend(x, y[..|y| - 1]);
      assert (x + y)[..|x + y| - 1] == x + y[..|y| - 1];
    }
  }

  /** Text appended to a text only ever extends its stripped form. */
  lemma {:induction false} StripExtends(x: string, y: string)
    ensures Strip(x) <= Strip(x + y)
  {
    if Blank(x) {
      StripBlank(x);
    } else {
      StripLeftAppend(x, y);
      var u := StripLeft(x);
      StripRightPrefix(u);
      if Blank(y) { StripRightBlank(u, y); } else { StripRightAppend(u, y); }
    }
  }

  lemma {:induction false} StripKeepsInkedEnds(s: string)
    requires s != "" && !IsSpace(s[0]) && !IsSpace(s[|s| - 1])
    ensures Strip(s) == s
  {
  }

  lemma {:induction false} StrippedEnds(s: string)
    ensures Strip(s) != "" ==> !IsSpace(Strip(s)[0]) && !IsSpace(Strip(s)[|Strip(s)| - 1])
  {
    StripLeftHead(s);
    StripRightPrefix(StripLeft(s));
    StripRightLast(StripLeft(s));
  }

  lemma {:induction false} StripLeftHead(s: string)
    ensures StripLeft(s) != "" ==> !IsSpace(StripLeft(s)[0])
  {
    if s != "" && IsSpace(s[0]) { StripLeftHead(s[1..]); }
  }

  lemma {:induction false} StripRightLast(s: string)
    ensures StripRight(s) != "" ==> !IsSpace(StripRight(s)[|StripRight(s)| - 1])
  {
    if s != "" && IsSpace(s[|s| - 1]) { StripRightLast(s[..|s| - 1]); }
  }

  /** `needle in hay`. */
  predicate Contains(hay: string, needle: string) {
    exists k | 0 <= k <= |hay| :: StartsWithAt(hay, needle, k)
  }

  predicate StartsWithAt(s: string, prefix: string, at: nat) {
    at + |prefix| <= |s| && s[at..at + |prefix|] == prefix
  }

  // ---------------------------------------------------------------------
  // Lists of results
  // ---------------------------------------------------------------------

  /** The errors among the first `k` results, in order. */
  function ErrorsTo<T, E>(results: seq<Result<T, E>>, k: nat): seq<E>
    requires k <= |results|
  {
    if k == 0 then []
    else ErrorsTo(results, k - 1) + (if results[k - 1].Err? then [results[k - 1].error] else [])
  }

  /** The values among the first `k` results, in order. */
  function ValuesTo<T, E>(results: seq<Result<T, E>>, k: nat): seq<T>
    requires k <= |results|
  {
    if k == 0 then []
    else ValuesTo(results, k - 1) + (if results[k - 1].Ok? then [results[k - 1].value] else [])
  }

  predicate AllOk<T, E>(results: seq<Result<T, E>>, k: nat)
    requires k <= |results|
  {
    forall i | 0 <= i < k :: results[i].Ok?
  }

  /** No errors means every result is a value, each in its place. */
  lemma {:induction false} NoErrors<T, E>(results: seq<Result<T, E>>, k: nat)
    requires k <= |results|
    ensures ErrorsTo(results, k) == [] <==> AllOk(results, k)
    ensures AllOk(results, k) ==> |ValuesTo(results, k)| == k
    ensures AllOk(results, k) ==> forall i | 0 <= i < k :: results[i] == Ok(ValuesTo(results, k)[i])
  {
    if k > 0 { NoErrors(results, k - 1); }
  }

  // ---------------------------------------------------------------------
  // Decimal renderings
  // ---------------------------------------------------------------------

  function Digit(d: nat): char
    requires d < 10
  {
    ('0' as int + d) as char
  }

  /** `"%d" % n`. */
  function Decimal(n: nat): string {
    if n < 10 then [Digit(n)] else Decimal(n / 10) + [Digit(n % 10)]
  }

  /** `"%0<width>d" % n`: a width, never a ceiling. */
  function Padded(n: nat, width: nat): string {
    var d := Decimal(n);
    if |d| >= width then d else seq(width - |d|, _ => '0') + d
  }

  /** The number a run of decimal digits spells. */
  function Value(s: string): int {
    if s == "" then 0 else 10 * Value(s[..|s| - 1]) + (s[|s| - 1] as int - '0' as int)
  }

  lemma {:induction false} DecimalValue(n: nat)
    ensures Value(Decimal(n)) == n
  {
    if n >= 10 {
      DecimalValue(n / 10);
      var d := Decimal(n);
      assert d[..|d| - 1] == Decimal(n / 10);
    } else {
      assert Decimal(n)[..0] == "";
    }
  }

  lemma {:induction false} ZerosValue(k: nat, s: string)
    ensures Value(seq(k, _ => '0') + s) == Value(s)
  {
    var z := seq(k, _ => '0');
    if s == "" {
      if k > 0 {
        ZerosValue(k - 1, "");
        assert (z + s)[..k - 1] == seq(k - 1, _ => '0') + "";
      }
    } else {
      ZerosValue(k, s[..|s| - 1]);
      assert (z + s)[..|z + s| - 1] == z + s[..|s| - 1];
    }
  }

  /** Zero padding loses nothing: two numbers with one rendering are one number. */
  lemma {:induction false} PaddedInjective(m: nat, n: nat, width: nat)
    requires Padded(m, width) == Padded(n, width)
    ensures m == n
  {
    DecimalValue(m);
    DecimalValue(n);
    if |Decimal(m)| < width { ZerosValue(width - |Decimal(m)|, Decimal(m)); }
    if |Decimal(n)| < width { ZerosValue(width - |Decimal(n)|, Decimal(n)); }
  }

  lemma {:induction false} AppendAssociates(a: string, b: string, c: string)
    ensures a + (b + c) == (a + b) + c
  {
  }
}
