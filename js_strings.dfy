/** The ECMAScript string built-ins the plan route relies on:
    `String.prototype.trim`, `startsWith`, `endsWith`, `indexOf`,
    `replace` with a string pattern (including the `$` patterns of the
    replacement string) and `Array.prototype.join`.
    Strings are sequences of Unicode scalar values; every position the route
    cuts at lies next to an ASCII character or a BMP white-space character,
    so this agrees with JavaScript's UTF-16 indexing there. */
module JsStrings {
  import opened Common

  // ---------------------------------------------------------------------------
  // Whitespace and trim
  // ---------------------------------------------------------------------------

  /** The WhiteSpace and LineTerminator code points of ECMAScript, which is
      the set `String.prototype.trim` removes (space separators as of
      Unicode 15). */
  predicate IsWhitespace(c: char) {
    || c == '\t' || c == '\n' || c == '\U{000B}' || c == '\U{000C}' || c == '\r'
    || c == ' ' || c == '\U{00A0}' || c == '\U{1680}'
    || ('\U{2000}' <= c <= '\U{200A}')
    || c == '\U{2028}' || c == '\U{2029}' || c == '\U{202F}' || c == '\U{205F}'
    || c == '\U{3000}' || c == '\U{FEFF}'
  }

  predicate AllWhitespace(s: string) {
    forall i :: 0 <= i < |s| ==> IsWhitespace(s[i])
  }

  /** Neither starts nor ends with whitespace. */
  predicate Trimmed(s: string) {
    s == [] || (!IsWhitespace(s[0]) && !IsWhitespace(s[|s| - 1]))
  }

  /** `r` occurs in `s` starting at position `i`. */
  predicate InfixAt(r: string, s: string, i: int) {
    0 <= i && i + |r| <= |s| && s[i..i + |r|] == r
  }

  predicate IsInfix(r: string, s: string) {
    exists i | 0 <= i <= |s| :: InfixAt(r, s, i)
  }

  /** An infix of an infix is an infix. */
  lemma InfixTransitive(r: string, m: string, s: string)
    requires IsInfix(r, m) && IsInfix(m, s)
    ensures IsInfix(r, s)
  {
    var i :| 0 <= i <= |m| && InfixAt(r, m, i);
    var j :| 0 <= j <= |s| && InfixAt(m, s, j);
    assert m[i..i + |r|] == r && s[j..j + |m|] == m;
    assert forall k :: 0 <= k < |r| ==> s[j + i + k] == m[i + k] == r[k];
    assert InfixAt(r, s, j + i);
  }

  /** The end of the whitespace run that starts at `i`. */
  function SkipLeading(s: string, i: nat): (j: nat)
    requires i <= |s|
    ensures i <= j <= |s|
    ensures forall k :: i <= k < j ==> IsWhitespace(s[k])
    ensures j < |s| ==> !IsWhitespace(s[j])
    decreases |s| - i
  {
    if i < |s| && IsWhitespace(s[i]) then SkipLeading(s, i + 1) else i
  }

  /** The start of the whitespace run that ends at `j`. */
  function SkipTrailing(s: string, j: nat): (i: nat)
    requires j <= |s|
    ensures i <= j
    ensures forall k :: i <= k < j ==> IsWhitespace(s[k])
    ensures i > 0 ==> !IsWhitespace(s[i - 1])
  {
    if j > 0 && IsWhitespace(s[j - 1]) then SkipTrailing(s, j - 1) else j
  }

  /** Removes the longest whitespace prefix. */
  function TrimStart(s: string): (r: string)
    ensures |r| <= |s| && r == s[|s| - |r|..]
    ensures AllWhitespace(s[..|s| - |r|])
    ensures r != [] ==> !IsWhitespace(r[0])
  {
    s[SkipLeading(s, 0)..]
  }

  /** Removes the longest whitespace suffix. */
  function TrimEnd(s: string): (r: string)
    ensures |r| <= |s| && r == s[..|r|]
    ensures AllWhitespace(s[|r|..])
    ensures r != [] ==> !IsWhitespace(r[|r| - 1])
  {
    s[..SkipTrailing(s, |s|)]
  }

  /** `String.prototype.trim`: what is left lies inside `s` and is trimmed. */
  function Trim(s: string): (r: string)
    ensures Trimmed(r)
    ensures |r| <= |s| && IsInfix(r, s)
  {
    var u := TrimStart(s);
    var r := TrimEnd(u);
    SliceOfSuffix(s, |s| - |u|, |r|);
    assert r != [] ==> r[0] == u[0];
    r
  }

  /** A prefix of a suffix lies inside the text. */
  lemma SliceOfSuffix(s: string, i: nat, n: nat)
    requires i + n <= |s|
    ensures InfixAt(s[i..][..n], s, i)
  {
  }

  /** Leading whitespace followed by a non-blank start goes entirely. */
  lemma TrimStartExact(w: string, t: string)
    requires AllWhitespace(w)
    requires t == [] || !IsWhitespace(t[0])
    ensures TrimStart(w + t) == t
  {
    var s := w + t;
    assert forall k :: 0 <= k < |w| ==> s[k] == w[k];
    assert t != [] ==> s[|w|] == t[0];
    assert s[|w|..] == t;
  }

  /** Trailing whitespace after a non-blank end goes entirely. */
  lemma TrimEndExact(t: string, w: string)
    requires AllWhitespace(w)
    requires t == [] || !IsWhitespace(t[|t| - 1])
    ensures TrimEnd(t + w) == t
  {
    var s := t + w;
    assert forall k :: |t| <= k < |s| ==> s[k] == w[k - |t|];
    assert t != [] ==> s[|t| - 1] == t[|t| - 1];
    assert s[..|t|] == t;
  }

  /** Trim is characterised by its result alone: whatever whitespace
      surrounds a trimmed text, trimming gives back exactly that text. */
  lemma TrimUnique(w1: string, b: string, w2: string)
    requires AllWhitespace(w1) && AllWhitespace(w2) && Trimmed(b)
    ensures Trim(w1 + b + w2) == b
  {
    if b == [] {
      assert w1 + b + w2 == (w1 + w2) + [];
      TrimStartExact(w1 + w2, []);
    } else {
      assert w1 + b + w2 == w1 + (b + w2);
      TrimStartExact(w1, b + w2);
      TrimEndExact(b, w2);
    }
  }

  /** Trimming changes a text exactly when it is not already trimmed. */
  lemma TrimFixedIff(s: string)
    ensures Trim(s) == s <==> Trimmed(s)
  {
    if Trimmed(s) {
      assert [] + s + [] == s;
      TrimUnique([], s, []);
    }
  }

  // ---------------------------------------------------------------------------
  // startsWith, endsWith, indexOf
  // ---------------------------------------------------------------------------

  predicate StartsWith(s: string, prefix: string) {
    |prefix| <= |s| && s[..|prefix|] == prefix
  }

  predicate EndsWith(s: string, suffix: string) {
    |suffix| <= |s| && s[|s| - |suffix|..] == suffix
  }

  /** `startsWith` holds exactly when the text is the prefix followed by
      something. */
  lemma StartsWithIff(s: string, prefix: string)
    ensures StartsWith(s, prefix) <==> exists rest :: s == prefix + rest
  {
    if StartsWith(s, prefix) {
      assert s == prefix + s[|prefix|..];
    }
  }

  /** `endsWith` holds exactly when the text is something followed by the
      suffix. */
  lemma EndsWithIff(s: string, suffix: string)
    ensures EndsWith(s, suffix) <==> exists front :: s == front + suffix
  {
    if EndsWith(s, suffix) {
      assert s == s[..|s| - |suffix|] + suffix;
    }
  }

  /** `pat` occurs in `s` at position `i`. */
  predicate OccursAt(s: string, pat: string, i: nat) {
    i + |pat| <= |s| && s[i..i + |pat|] == pat
  }

  /** The least position at or after `from` where `pat` occurs. */
  function IndexFrom(s: string, pat: string, from: nat): (r: Option<nat>)
    ensures r.Some? ==> from <= r.value && OccursAt(s, pat, r.value)
    ensures forall j: nat :: from <= j && (r.None? || j < r.value) ==> !OccursAt(s, pat, j)
    decreases |s| + 1 - from
  {
    if from + |pat| > |s| then None
    else if s[from..from + |pat|] == pat then Some(from)
    else IndexFrom(s, pat, from + 1)
  }

  /** `String.prototype.indexOf`, with `None` for JavaScript's -1: the first
      occurrence, and no occurrence before it. */
  function IndexOf(s: string, pat: string): (r: Option<nat>)
    ensures r.Some? ==> OccursAt(s, pat, r.value)
    ensures forall j: nat :: r.None? || j < r.value ==> !OccursAt(s, pat, j)
  {
    IndexFrom(s, pat, 0)
  }

  // ---------------------------------------------------------------------------
  // replace with a string pattern
  // ---------------------------------------------------------------------------

  /** GetSubstitution of ECMAScript for a string pattern (no capture groups):
      `$$` gives `$`, `$&` the matched text, `` $` `` the text before the
      match, `$'` the text after it; every other `$` (including `$1` and
      `$<`) stands for itself. */
  function Substitution(matched: string, str: string, position: nat, rep: string): (r: string)
    requires position + |matched| <= |str|
    ensures '$' !in rep ==> r == rep
    decreases |rep|
  {
    if rep == [] then []
    else if |rep| >= 2 && rep[0] == '$' && rep[1] == '$' then
      "$" + Substitution(matched, str, position, rep[2..])
    else if |rep| >= 2 && rep[0] == '$' && rep[1] == '&' then
      matched + Substitution(matched, str, position, rep[2..])
    else if |rep| >= 2 && rep[0] == '$' && rep[1] == '`' then
      str[..position] + Substitution(matched, str, position, rep[2..])
    else if |rep| >= 2 && rep[0] == '$' && rep[1] == '\'' then
      str[position + |matched|..] + Substitution(matched, str, position, rep[2..])
    else
      assert '$' !in rep ==> '$' !in rep[1..] by {
        assert forall c :: c in rep[1..] ==> c in rep;
      }
      assert rep == [rep[0]] + rep[1..];
      [rep[0]] + Substitution(matched, str, position, rep[1..])
  }

  /** `String.prototype.replace(pat, rep)` with a string `pat`: only the first
      occurrence is replaced; without an occurrence the text is returned. */
  function ReplaceFirst(s: string, pat: string, rep: string): (r: string)
    ensures (forall j: nat :: !OccursAt(s, pat, j)) ==> r == s
  {
    match IndexOf(s, pat)
    case None => s
    case Some(i) => s[..i] + Substitution(pat, s, i, rep) + s[i + |pat|..]
  }

  /** When `pat` does not start inside `a`, its first occurrence in
      `a + pat + b` is right after `a`. */
  lemma FirstOccurrence(a: string, pat: string, b: string)
    requires forall j: nat :: j < |a| ==> !OccursAt(a + pat + b, pat, j)
    ensures IndexOf(a + pat + b, pat) == Some(|a|)
  {
    var s := a + pat + b;
    assert s[|a|..|a| + |pat|] == pat;
    assert OccursAt(s, pat, |a|);
  }

  /** Replace touches only the first occurrence: when `pat` first occurs right
      after `a`, the text is `a`, then the substituted replacement, then `b`
      verbatim, whatever further occurrences `b` holds. */
  lemma ReplaceFirstAt(a: string, pat: string, b: string, rep: string)
    requires forall j: nat :: j < |a| ==> !OccursAt(a + pat + b, pat, j)
    ensures ReplaceFirst(a + pat + b, pat, rep) == a + Substitution(pat, a + pat + b, |a|, rep) + b
  {
    var s := a + pat + b;
    FirstOccurrence(a, pat, b);
    assert s[..|a|] == a;
    assert s[|a| + |pat|..] == b;
  }

  /** A replacement text without `$` goes in literally. */
  lemma ReplaceFirstSplit(a: string, pat: string, b: string, rep: string)
    requires forall j: nat :: j < |a| ==> !OccursAt(a + pat + b, pat, j)
    requires '$' !in rep
    ensures ReplaceFirst(a + pat + b, pat, rep) == a + rep + b
  {
    ReplaceFirstAt(a, pat, b, rep);
  }

  /** A text in which `pat`'s first character does not appear holds no
      occurrence of `pat` starting inside it. */
  lemma NoOccurrenceIn(a: string, pat: string, b: string)
    requires pat != [] && pat[0] !in a
    ensures forall j: nat :: j < |a| ==> !OccursAt(a + pat + b, pat, j)
  {
  }

  /** `$$` stands for one `$`, `$&` for the matched text, `` $` `` for the
      text before the match and `$'` for the text after it. */
  lemma SubstitutionDollars(matched: string, str: string, position: nat, dollars: string, ampersand: string, before: string, after: string)
    requires position + |matched| <= |str|
    requires dollars == "$$" && ampersand == "$&" && before == "$`" && after == "$'"
    ensures Substitution(matched, str, position, dollars) == "$"
    ensures Substitution(matched, str, position, ampersand) == matched
    ensures Substitution(matched, str, position, before) == str[..position]
    ensures Substitution(matched, str, position, after) == str[position + |matched|..]
  {
    assert dollars[2..] == [] && ampersand[2..] == [];
    assert before[2..] == [] && after[2..] == [];
  }

  /** A value is not always inserted as written: `$$` goes in as a single
      `$`, and `$&` goes in as the placeholder itself. */
  lemma DollarPatterns(a: string, pat: string, b: string, dollars: string, ampersand: string)
    requires forall j: nat :: j < |a| ==> !OccursAt(a + pat + b, pat, j)
    requires dollars == "$$" && ampersand == "$&"
    ensures ReplaceFirst(a + pat + b, pat, dollars) == a + "$" + b
    ensures ReplaceFirst(a + pat + b, pat, ampersand) == a + pat + b
  {
    ReplaceFirstAt(a, pat, b, dollars);
    ReplaceFirstAt(a, pat, b, ampersand);
    SubstitutionDollars(pat, a + pat + b, |a|, dollars, ampersand, "$`", "$'");
  }

  /** Text at position `j` of `a + m + b` that ends before `m` or starts
      after it lies inside `a` or inside `b`. */
  lemma InfixBeside(t: string, a: string, m: string, b: string, j: nat)
    requires InfixAt(t, a + m + b, j)
    requires j + |t| <= |a| || |a| + |m| <= j
    ensures IsInfix(t, a) || IsInfix(t, b)
  {
    var s := a + m + b;
    if j + |t| <= |a| {
      assert a[j..j + |t|] == s[j..j + |t|];
      assert InfixAt(t, a, j);
    } else {
      var k := j - |a| - |m|;
      assert b[k..k + |t|] == s[j..j + |t|];
      assert InfixAt(t, b, k);
    }
  }

  /** Text inside `a` or inside `b` is inside `a + x + b`. */
  lemma InfixOfEither(t: string, a: string, x: string, b: string)
    requires IsInfix(t, a) || IsInfix(t, b)
    ensures IsInfix(t, a + x + b)
  {
    var r := a + x + b;
    if IsInfix(t, a) {
      var j :| 0 <= j <= |a| && InfixAt(t, a, j);
      assert r[j..j + |t|] == a[j..j + |t|];
      assert InfixAt(t, r, j);
    } else {
      var j :| 0 <= j <= |b| && InfixAt(t, b, j);
      assert r[|a| + |x| + j..|a| + |x| + j + |t|] == b[j..j + |t|];
      assert InfixAt(t, r, |a| + |x| + j);
    }
  }

  /** Text lying wholly before or wholly after the first occurrence of `pat`
      is still in the text after the replacement. */
  lemma ReplaceKeepsDisjoint(s: string, pat: string, rep: string, t: string, j: nat)
    requires InfixAt(t, s, j)
    requires IndexOf(s, pat).Some? ==>
               j + |t| <= IndexOf(s, pat).value || IndexOf(s, pat).value + |pat| <= j
    ensures IsInfix(t, ReplaceFirst(s, pat, rep))
  {
    match IndexOf(s, pat)
    case None =>
      assert InfixAt(t, ReplaceFirst(s, pat, rep), j);
    case Some(i) =>
      var a, b := s[..i], s[i + |pat|..];
      assert s == a + pat + b;
      ReplaceFirstAt(a, pat, b, rep);
      InfixBeside(t, a, pat, b, j);
      InfixOfEither(t, a, Substitution(pat, s, i, rep), b);
  }

  /** A `$`-free replacement for a pattern that occurs is in the result. */
  lemma ReplaceInserts(s: string, pat: string, rep: string)
    requires IsInfix(pat, s) && '$' !in rep
    ensures IsInfix(rep, ReplaceFirst(s, pat, rep))
  {
    var j :| 0 <= j <= |s| && InfixAt(pat, s, j);
    assert OccursAt(s, pat, j);
    var i := IndexOf(s, pat).value;
    var a, b := s[..i], s[i + |pat|..];
    assert s == a + pat + b;
    ReplaceFirstSplit(a, pat, b, rep);
    assert InfixAt(rep, a + rep + b, |a|);
  }

  // ---------------------------------------------------------------------------
  // Array.prototype.join
  // ---------------------------------------------------------------------------

  /** `Array.prototype.join(sep)` over strings. */
  function Join(xs: seq<string>, sep: string): string {
    if |xs| == 0 then ""
    else if |xs| == 1 then xs[0]
    else xs[0] + sep + Join(xs[1..], sep)
  }

  /** ["hiking", "food"] joined with ", " is "hiking, food". */
  lemma JoinTwo(a: string, b: string, sep: string)
    ensures Join([a, b], sep) == a + sep + b
    ensures a == "hiking" && b == "food" && sep == ", " ==> Join([a, b], sep) == "hiking, food"
  {
    assert [a, b][1..] == [b];
  }

  /** A joined list starts with its first element and ends with its last. */
  lemma {:induction false} JoinEnds(xs: seq<string>, sep: string)
    requires xs != []
    ensures StartsWith(Join(xs, sep), xs[0])
    ensures EndsWith(Join(xs, sep), xs[|xs| - 1])
  {
    if |xs| > 1 {
      JoinEnds(xs[1..], sep);
      var rest := Join(xs[1..], sep);
      var r := xs[0] + sep + rest;
      assert r[..|xs[0]|] == xs[0];
      assert r[|r| - |rest|..] == rest;
      assert xs[1..][|xs[1..]| - 1] == xs[|xs| - 1];
    }
  }

  function TotalLength(xs: seq<string>): nat {
    if xs == [] then 0 else |xs[0]| + TotalLength(xs[1..])
  }

  /** Joining adds exactly one separator between neighbouring elements. */
  lemma {:induction false} JoinLength(xs: seq<string>, sep: string)
    requires xs != []
    ensures |Join(xs, sep)| == TotalLength(xs) + |sep| * (|xs| - 1)
  {
    if |xs| > 1 {
      JoinLength(xs[1..], sep);
    }
  }
}
