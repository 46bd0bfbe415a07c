/**
 * Reading a fragment path: splitting it into components and reading an
 * array component as an unsigned index, as the fragment resolver does.
 */
module Fragment {
  import opened Wrappers

  /** Largest value of `usize` on a 64-bit target. */
  const UsizeMax: nat := 0xFFFF_FFFF_FFFF_FFFF

  /** A path component: non-empty and free of the separator. */
  predicate IsComponent(c: string) {
    |c| > 0 && '/' !in c
  }

  /** The characters of `s` other than '/', in order. */
  function WithoutSlashes(s: string): string {
    if s == [] then []
    else (if s[0] == '/' then [] else [s[0]]) + WithoutSlashes(s[1..])
  }

  /** The characters of all components, in order. */
  function Concat(cs: seq<string>): string {
    if cs == [] then [] else cs[0] + Concat(cs[1..])
  }

  /** The piece read so far, as a list of at most one component. */
  function Flush(cur: string): seq<string> {
    if cur == [] then [] else [cur]
  }

  /**
   * Splits `fragment` at every '/' and keeps the non-empty pieces;
   * `cur` is the piece read so far.
   */
  function Tokens(fragment: string, cur: string): (cs: seq<string>)
    requires '/' !in cur
    ensures forall i | 0 <= i < |cs| :: IsComponent(cs[i])
    decreases |fragment|
  {
    if fragment == [] then Flush(cur)
    else if fragment[0] == '/' then Flush(cur) + Tokens(fragment[1..], [])
    else Tokens(fragment[1..], cur + [fragment[0]])
  }

  lemma {:induction false} ConcatAppend(a: seq<string>, b: seq<string>)
    ensures Concat(a + b) == Concat(a) + Concat(b)
  {
    if a != [] {
      assert (a + b)[1..] == a[1..] + b;
      ConcatAppend(a[1..], b);
    } else {
      assert a + b == b;
    }
  }

  /** The pieces hold the piece read so far and then every non-separator character. */
  lemma {:induction false} TokensConcat(fragment: string, cur: string)
    requires '/' !in cur
    ensures Concat(Tokens(fragment, cur)) == cur + WithoutSlashes(fragment)
    decreases |fragment|
  {
    if fragment == [] {
    } else if fragment[0] == '/' {
      TokensConcat(fragment[1..], []);
      ConcatAppend(Flush(cur), Tokens(fragment[1..], []));
    } else {
      TokensConcat(fragment[1..], cur + [fragment[0]]);
    }
  }

  /**
   * The components of a fragment: `""` and `"/"` give none, `"/a/b"` gives
   * `["a", "b"]`.  Every component is non-empty and '/'-free, and together
   * they hold exactly the fragment's non-separator characters.
   */
  function Components(fragment: string): (cs: seq<string>)
    ensures forall i | 0 <= i < |cs| :: IsComponent(cs[i])
    ensures Concat(cs) == WithoutSlashes(fragment)
  {
    TokensConcat(fragment, []);
    Tokens(fragment, [])
  }

  /** The canonical fragment naming the components `cs`: `"/" + c` for each. */
  function Pointer(cs: seq<string>): string {
    if cs == [] then [] else "/" + cs[0] + Pointer(cs[1..])
  }

  lemma {:induction false} TokensSkipWord(c: string, f: string, cur: string)
    requires '/' !in c && '/' !in cur
    ensures Tokens(c + f, cur) == Tokens(f, cur + c)
    decreases |c|
  {
    if c != [] {
      assert (c + f)[0] == c[0] && (c + f)[1..] == c[1..] + f;
      assert cur + c == (cur + [c[0]]) + c[1..];
      TokensSkipWord(c[1..], f, cur + [c[0]]);
    } else {
      assert c + f == f && cur + c == cur;
    }
  }

  lemma {:induction false} TokensOfPointer(cs: seq<string>, cur: string)
    requires '/' !in cur
    requires forall i | 0 <= i < |cs| :: IsComponent(cs[i])
    ensures Tokens(Pointer(cs), cur) == Flush(cur) + cs
    decreases |cs|
  {
    if cs != [] {
      var p := Pointer(cs);
      var tail := Pointer(cs[1..]);
      assert p[0] == '/' && p[1..] == cs[0] + tail;
      TokensSkipWord(cs[0], tail, []);
      assert [] + cs[0] == cs[0];
      TokensOfPointer(cs[1..], cs[0]);
      assert cs == [cs[0]] + cs[1..];
    }
  }

  /** Splitting the canonical fragment of a component list gives that list back. */
  lemma ComponentsOfPointer(cs: seq<string>)
    requires forall i | 0 <= i < |cs| :: IsComponent(cs[i])
    ensures Components(Pointer(cs)) == cs
  {
    TokensOfPointer(cs, []);
  }

  lemma {:induction false} TokensAtSlash(f: string, g: string, cur: string)
    requires '/' !in cur
    ensures Tokens(f + "/" + g, cur) == Tokens(f, cur) + Tokens(g, [])
    decreases |f|
  {
    var h := f + "/" + g;
    if f == [] {
      assert h == "/" + g && h[1..] == g;
    } else {
      assert h[0] == f[0] && h[1..] == f[1..] + "/" + g;
      if f[0] == '/' {
        TokensAtSlash(f[1..], g, []);
      } else {
        TokensAtSlash(f[1..], g, cur + [f[0]]);
      }
    }
  }

  /** A fragment is cut at every '/': the components of `f + "/" + g` are those of `f` then those of `g`. */
  lemma ComponentsAtSlash(f: string, g: string)
    ensures Components(f + "/" + g) == Components(f) + Components(g)
  {
    TokensAtSlash(f, g, []);
  }

  /** A fragment without '/' is a single component, or none when it is empty. */
  lemma ComponentsOfSlashFree(c: string)
    requires '/' !in c
    ensures Components(c) == (if c == [] then [] else [c])
  {
    TokensSkipWord(c, [], []);
    assert c + [] == c && [] + c == c;
  }

  predicate IsDigit(ch: char) {
    '0' <= ch <= '9'
  }

  predicate AllDigits(s: string) {
    forall i | 0 <= i < |s| :: IsDigit(s[i])
  }

  /** The base-10 value of a string of digits. */
  function DecimalValue(d: string): nat
    requires AllDigits(d)
    decreases |d|
  {
    if d == [] then 0
    else 10 * DecimalValue(d[..|d| - 1]) + (d[|d| - 1] as int - '0' as int)
  }

  /**
   * Rust's `str::parse::<usize>`: an optional '+' followed by at least one
   * decimal digit, whose value must fit in `usize`.
   */
  function ParseIndex(s: string): (r: Option<nat>)
    ensures r.Some? ==> r.value <= UsizeMax
    ensures r.Some? ==> |s| > 0 && IsDigit(s[|s| - 1])
    ensures r.Some? ==> forall i | 0 <= i < |s| :: IsDigit(s[i]) || (i == 0 && s[i] == '+')
  {
    var digits := if |s| > 0 && s[0] == '+' then s[1..] else s;
    if |digits| > 0 && AllDigits(digits) && DecimalValue(digits) <= UsizeMax then
      Some(DecimalValue(digits))
    else
      None
  }

  /** The decimal spelling of `n`, without sign or leading zeros. */
  function Decimal(n: nat): (d: string)
    ensures |d| > 0 && AllDigits(d)
  {
    if n < 10 then [('0' as int + n) as char]
    else Decimal(n / 10) + [('0' as int + n % 10) as char]
  }

  lemma {:induction false} DecimalValueOfDecimal(n: nat)
    ensures DecimalValue(Decimal(n)) == n
  {
    if n >= 10 {
      var d := Decimal(n);
      assert d[..|d| - 1] == Decimal(n / 10);
      DecimalValueOfDecimal(n / 10);
    }
  }

  /**
   * An index written in decimal, with or without a leading '+', parses
   * back to itself exactly when it fits in `usize`.
   */
  lemma ParseIndexOfDecimal(n: nat)
    ensures ParseIndex(Decimal(n)) == (if n <= UsizeMax then Some(n) else None)
    ensures ParseIndex("+" + Decimal(n)) == (if n <= UsizeMax then Some(n) else None)
  {
    DecimalValueOfDecimal(n);
    assert ("+" + Decimal(n))[1..] == Decimal(n);
  }

  /** `k` zero digits. */
  function Zeros(k: nat): (z: string)
    ensures |z| == k && forall i | 0 <= i < k :: z[i] == '0'
  {
    if k == 0 then [] else "0" + Zeros(k - 1)
  }

  lemma {:induction false} DecimalValueOfZeros(k: nat)
    ensures DecimalValue(Zeros(k)) == 0
  {
    if k > 0 {
      var z := Zeros(k);
      assert z[..|z| - 1] == Zeros(k - 1);
      DecimalValueOfZeros(k - 1);
    }
  }

  lemma {:induction false} DecimalValueLeadingZeros(k: nat, d: string)
    requires AllDigits(d)
    ensures AllDigits(Zeros(k) + d) && DecimalValue(Zeros(k) + d) == DecimalValue(d)
    decreases |d|
  {
    var w := Zeros(k) + d;
    if d == [] {
      assert w == Zeros(k);
      DecimalValueOfZeros(k);
    } else {
      assert w[..|w| - 1] == Zeros(k) + d[..|d| - 1];
      DecimalValueLeadingZeros(k, d[..|d| - 1]);
    }
  }

  /** A digit string, with or without a leading '+', parses to its value when that fits in `usize`. */
  lemma ParseIndexOfDigits(d: string)
    requires |d| > 0 && AllDigits(d)
    ensures ParseIndex(d) == (if DecimalValue(d) <= UsizeMax then Some(DecimalValue(d)) else None)
    ensures ParseIndex("+" + d) == ParseIndex(d)
  {
    assert d[0] != '+' by {
      assert IsDigit(d[0]);
    }
    assert ("+" + d)[1..] == d;
  }

  /**
   * Leading zeros do not change an index: `"007"` and `"+007"` parse as 7,
   * within the `usize` bound.
   */
  lemma ParseIndexLeadingZeros(k: nat, n: nat)
    ensures ParseIndex(Zeros(k) + Decimal(n)) == (if n <= UsizeMax then Some(n) else None)
    ensures ParseIndex("+" + Zeros(k) + Decimal(n)) == (if n <= UsizeMax then Some(n) else None)
  {
    DecimalValueOfDecimal(n);
    DecimalValueLeadingZeros(k, Decimal(n));
    ParseIndexOfDigits(Zeros(k) + Decimal(n));
    assert "+" + Zeros(k) + Decimal(n) == "+" + (Zeros(k) + Decimal(n));
  }
}
