/** Character classes, string helpers and the global-replace engine shared by every
    rewrite in this project.  Strings are `seq<char>`; one char stands for one
    JavaScript UTF-16 code unit (text outside the Basic Multilingual Plane is not
    modelled, see README). */
module Text {

  datatype Option<T> = None | Some(value: T)

  type String = seq<char>

  // ---------------------------------------------------------------------------
  // Character classes
  // ---------------------------------------------------------------------------

  /** JavaScript's WhiteSpace and LineTerminator code points: the class `\s` and
      what `String.prototype.trim` removes. */
  predicate IsSpace(c: char) {
    c == ' ' || c == '\t' || c == '\n' || c == '\r' || c == '\U{000B}' || c == '\U{000C}'
    || c == '\U{00A0}' || c == '\U{1680}' || ('\U{2000}' <= c <= '\U{200A}')
    || c == '\U{2028}' || c == '\U{2029}' || c == '\U{202F}' || c == '\U{205F}'
    || c == '\U{3000}' || c == '\U{FEFF}'
  }

  /** The characters before which `$` holds and after which `^` holds in a
      regular expression with the `m` flag; `.` matches anything else. */
  predicate IsLineTerminator(c: char) {
    c == '\n' || c == '\r' || c == '\U{2028}' || c == '\U{2029}'
  }

  lemma LineTerminatorIsSpace(c: char)
    requires IsLineTerminator(c)
    ensures IsSpace(c)
  {
  }

  predicate IsDigit(c: char) { '0' <= c <= '9' }

  predicate IsAsciiLetter(c: char) { 'a' <= c <= 'z' || 'A' <= c <= 'Z' }

  /** The class `\w`. */
  predicate IsWordChar(c: char) { IsAsciiLetter(c) || IsDigit(c) || c == '_' }

  /** ASCII lower-casing: the canonicalisation an `i`-flag regular expression
      applies to the ASCII letters of its pattern. */
  function Lower(c: char): (r: char)
    ensures 'A' <= c <= 'Z' ==> 'a' <= r <= 'z'
    ensures !('A' <= c <= 'Z') ==> r == c
  {
    if 'A' <= c <= 'Z' then (c as int + 32) as char else c
  }

  /** The class `[ \t]`. */
  predicate IsBlank(c: char) { c == ' ' || c == '\t' }

  /** `$` with the `m` flag holds at `j`: the end of the text or a line terminator. */
  predicate LineEndAt(s: String, j: nat) {
    j == |s| || (j < |s| && IsLineTerminator(s[j]))
  }

  /** `^` with the `m` flag holds at `i`: the start of the text or just after a line
      terminator. */
  predicate LineStartAt(s: String, i: nat) {
    i == 0 || (0 < i <= |s| && IsLineTerminator(s[i - 1]))
  }

  /** The first index at or after `i` where `$` (with `m`) holds: how far `.*` reaches. */
  function NextLineEnd(s: String, i: nat): (e: nat)
    requires i <= |s|
    ensures i <= e <= |s| && LineEndAt(s, e)
    ensures forall j :: i <= j < e ==> !IsLineTerminator(s[j])
    decreases |s| - i
  {
    if i == |s| || IsLineTerminator(s[i]) then i else NextLineEnd(s, i + 1)
  }

  /** The end of the run of characters equal to `c` starting at `i`. */
  function CharRunEnd(s: String, i: nat, c: char): (e: nat)
    requires i <= |s|
    ensures i <= e <= |s|
    ensures forall j :: i <= j < e ==> s[j] == c
    ensures e < |s| ==> s[e] != c
    decreases |s| - i
  {
    if i < |s| && s[i] == c then CharRunEnd(s, i + 1, c) else i
  }

  /** The end of the run of `[ \t]` characters starting at `i`. */
  function BlankRunEnd(s: String, i: nat): (e: nat)
    requires i <= |s|
    ensures i <= e <= |s|
    ensures forall j :: i <= j < e ==> IsBlank(s[j])
    ensures e < |s| ==> !IsBlank(s[e])
    decreases |s| - i
  {
    if i < |s| && IsBlank(s[i]) then BlankRunEnd(s, i + 1) else i
  }

  /** The end of the run of `\w` characters starting at `i`. */
  function WordRunEnd(s: String, i: nat): (e: nat)
    requires i <= |s|
    ensures i <= e <= |s|
    ensures forall j :: i <= j < e ==> IsWordChar(s[j])
    ensures e < |s| ==> !IsWordChar(s[e])
    decreases |s| - i
  {
    if i < |s| && IsWordChar(s[i]) then WordRunEnd(s, i + 1) else i
  }

  /** The end of the run of `\d` characters starting at `i`. */
  function DigitRunEnd(s: String, i: nat): (e: nat)
    requires i <= |s|
    ensures i <= e <= |s|
    ensures forall j :: i <= j < e ==> IsDigit(s[j])
    ensures e < |s| ==> !IsDigit(s[e])
    decreases |s| - i
  {
    if i < |s| && IsDigit(s[i]) then DigitRunEnd(s, i + 1) else i
  }

  /** Inside a run of blanks the run ends at the same place. */
  lemma {:induction false} BlankRunSame(s: String, i: nat, k: nat)
    requires i <= |s| && i <= k <= BlankRunEnd(s, i)
    ensures BlankRunEnd(s, k) == BlankRunEnd(s, i)
    decreases k - i
  {
    if i < k {
      BlankRunSame(s, i + 1, k);
    }
  }

  lemma {:induction false} CharRunSame(s: String, i: nat, k: nat, c: char)
    requires i <= |s| && i <= k <= CharRunEnd(s, i, c)
    ensures CharRunEnd(s, k, c) == CharRunEnd(s, i, c)
    decreases k - i
  {
    if i < k {
      CharRunSame(s, i + 1, k, c);
    }
  }

  /** The greatest `k` in `[lo, hi)` satisfying `ok`: the choice a greedy `[^>]*`
      tries first, backing off one character at a time. */
  function LastMatch(lo: nat, hi: nat, ok: nat -> bool): (r: Option<nat>)
    ensures r.Some? ==> lo <= r.value < hi && ok(r.value)
    ensures r.Some? ==> forall k :: r.value < k < hi ==> !ok(k)
    ensures r.None? ==> forall k :: lo <= k < hi ==> !ok(k)
    decreases hi
  {
    if hi <= lo then None
    else if ok(hi - 1) then Some(hi - 1)
    else LastMatch(lo, hi - 1, ok)
  }

  /** `k` is the greedy choice when it qualifies and nothing above it does. */
  lemma {:induction false} LastMatchIs(lo: nat, hi: nat, ok: nat -> bool, k: nat)
    requires lo <= k < hi && ok(k)
    requires forall j :: k < j < hi ==> !ok(j)
    ensures LastMatch(lo, hi, ok) == Some(k)
    decreases hi
  {
    if k < hi - 1 {
      LastMatchIs(lo, hi - 1, ok, k);
    }
  }

  // ---------------------------------------------------------------------------
  // Literal occurrences
  // ---------------------------------------------------------------------------

  /** `lit` occurs in `s` at index `i`. */
  predicate HasAt(s: String, i: nat, lit: String) {
    i + |lit| <= |s| && s[i..i + |lit|] == lit
  }

  /** `lit` occurs in `s` at index `i`, ignoring ASCII case. */
  predicate HasAtCI(s: String, i: nat, lit: String) {
    i + |lit| <= |s| && forall k :: 0 <= k < |lit| ==> Lower(s[i + k]) == Lower(lit[k])
  }

  /** One differing character rules an occurrence out. */
  lemma NotAtCI(s: String, i: nat, lit: String, k: nat)
    requires k < |lit| && i + k < |s| && Lower(s[i + k]) != Lower(lit[k])
    ensures !HasAtCI(s, i, lit)
  {
  }

  /** What occurs in a prefix of `s` occurs in `s`, ignoring case or not. */
  lemma HasAtPrefix(s: String, pre: String, i: nat, lit: String)
    requires |pre| <= |s| && s[..|pre|] == pre && HasAt(pre, i, lit)
    ensures HasAt(s, i, lit) && HasAtCI(s, i, lit)
  {
    assert s[i..i + |lit|] == s[..|pre|][i..i + |lit|];
    HasAtIsHasAtCI(s, i, lit);
  }

  lemma HasAtIsHasAtCI(s: String, i: nat, lit: String)
    requires HasAt(s, i, lit)
    ensures HasAtCI(s, i, lit)
  {
    forall k | 0 <= k < |lit| ensures Lower(s[i + k]) == Lower(lit[k]) {
      assert s[i..i + |lit|][k] == s[i + k];
    }
  }

  predicate Contains(s: String, lit: String) {
    exists i :: 0 <= i <= |s| && HasAt(s, i, lit)
  }

  predicate ContainsCI(s: String, lit: String) {
    exists i :: 0 <= i <= |s| && HasAtCI(s, i, lit)
  }

  /** The first index at or after `i` holding `c`, or `|s|` when there is none. */
  function FindChar(s: String, i: nat, c: char): (k: nat)
    requires i <= |s|
    ensures i <= k <= |s|
    ensures k < |s| ==> s[k] == c
    ensures forall j :: i <= j < k ==> s[j] != c
    decreases |s| - i
  {
    if i == |s| || s[i] == c then i else FindChar(s, i + 1, c)
  }

  /** The first `c` from `i` on is the one at `j` when none comes before it. */
  lemma {:induction false} FindCharAt(s: String, i: nat, j: nat, c: char)
    requires i <= j < |s| && s[j] == c
    requires forall k :: i <= k < j ==> s[k] != c
    ensures FindChar(s, i, c) == j
    decreases j - i
  {
    if i < j {
      FindCharAt(s, i + 1, j, c);
    }
  }

  /** The first index at or after `i` where `lit` occurs ignoring ASCII case. */
  function FindCI(s: String, i: nat, lit: String): (r: Option<nat>)
    requires i <= |s|
    ensures r.Some? ==> i <= r.value <= |s| && HasAtCI(s, r.value, lit)
    ensures r.Some? ==> forall j :: i <= j < r.value ==> !HasAtCI(s, j, lit)
    ensures r.None? ==> forall j :: i <= j <= |s| ==> !HasAtCI(s, j, lit)
    decreases |s| - i
  {
    if HasAtCI(s, i, lit) then Some(i)
    else if i == |s| then None
    else FindCI(s, i + 1, lit)
  }

  /** `String.prototype.indexOf(lit)`: -1 when absent. */
  function IndexOf(s: String, lit: String): (r: int)
    ensures -1 <= r <= |s|
    ensures r >= 0 ==> HasAt(s, r, lit) && forall j :: 0 <= j < r ==> !HasAt(s, j, lit)
    ensures r == -1 ==> forall j :: 0 <= j <= |s| ==> !HasAt(s, j, lit)
  {
    IndexFrom(s, 0, lit)
  }

  function IndexFrom(s: String, i: nat, lit: String): (r: int)
    requires i <= |s|
    ensures r == -1 || i <= r <= |s|
    ensures r >= 0 ==> HasAt(s, r, lit) && forall j :: i <= j < r ==> !HasAt(s, j, lit)
    ensures r == -1 ==> forall j :: i <= j <= |s| ==> !HasAt(s, j, lit)
    decreases |s| - i
  {
    if HasAt(s, i, lit) then i
    else if i == |s| then -1
    else IndexFrom(s, i + 1, lit)
  }

  /** `String.prototype.lastIndexOf(lit)`: -1 when absent. */
  function LastIndexOf(s: String, lit: String): (r: int)
    ensures -1 <= r <= |s|
    ensures r >= 0 ==> HasAt(s, r, lit) && forall j :: r < j <= |s| ==> !HasAt(s, j, lit)
    ensures r == -1 ==> forall j :: 0 <= j <= |s| ==> !HasAt(s, j, lit)
  {
    LastIndexBelow(s, |s|, lit)
  }

  /** The greatest index `<= i` where `lit` occurs, or -1. */
  function LastIndexBelow(s: String, i: nat, lit: String): (r: int)
    requires i <= |s|
    ensures -1 <= r <= i
    ensures r >= 0 ==> HasAt(s, r, lit) && forall j :: r < j <= i ==> !HasAt(s, j, lit)
    ensures r == -1 ==> forall j :: 0 <= j <= i ==> !HasAt(s, j, lit)
  {
    if HasAt(s, i, lit) then i
    else if i == 0 then -1
    else LastIndexBelow(s, i - 1, lit)
  }

  // ---------------------------------------------------------------------------
  // trim, split, join
  // ---------------------------------------------------------------------------

  /** The end of the run of `\s` characters starting at `i`. */
  function SpaceRunEnd(s: String, i: nat): (e: nat)
    requires i <= |s|
    ensures i <= e <= |s|
    ensures forall j :: i <= j < e ==> IsSpace(s[j])
    ensures e < |s| ==> !IsSpace(s[e])
    decreases |s| - i
  {
    if i < |s| && IsSpace(s[i]) then SpaceRunEnd(s, i + 1) else i
  }

  function TrimStart(s: String): (r: String)
    ensures |r| <= |s|
    ensures r != [] ==> !IsSpace(r[0])
  {
    if s != [] && IsSpace(s[0]) then TrimStart(s[1..]) else s
  }

  function TrimEnd(s: String): (r: String)
    ensures |r| <= |s|
    ensures r != [] ==> !IsSpace(r[|r| - 1])
  {
    if s != [] && IsSpace(s[|s| - 1]) then TrimEnd(s[..|s| - 1]) else s
  }

  /** `String.prototype.trim`. */
  function Trim(s: String): (r: String)
    ensures |r| <= |s|
  {
    TrimEnd(TrimStart(s))
  }

  /** Text that neither starts nor ends with white space is its own trim. */
  lemma TrimBare(s: String)
    requires s != [] ==> !IsSpace(s[0]) && !IsSpace(s[|s| - 1])
    ensures Trim(s) == s
  {
    assert TrimStart(s) == s;
  }

  lemma {:induction false} TrimStartSlice(s: String)
    ensures TrimStart(s) == s[|s| - |TrimStart(s)|..]
    ensures forall j :: 0 <= j < |s| - |TrimStart(s)| ==> IsSpace(s[j])
  {
    if s != [] && IsSpace(s[0]) {
      TrimStartSlice(s[1..]);
    }
  }

  lemma {:induction false} TrimEndSlice(s: String)
    ensures TrimEnd(s) == s[..|TrimEnd(s)|]
    ensures forall j :: |TrimEnd(s)| <= j < |s| ==> IsSpace(s[j])
  {
    if s != [] && IsSpace(s[|s| - 1]) {
      TrimEndSlice(s[..|s| - 1]);
    }
  }

  /** `trim` removes only whitespace, from both ends: what remains is the slice of
      `s` between its first and last non-whitespace characters. */
  lemma TrimSlice(s: String)
    ensures TrimLead(s) + |Trim(s)| <= |s|
    ensures Trim(s) == s[TrimLead(s)..TrimLead(s) + |Trim(s)|]
    ensures forall j :: 0 <= j < TrimLead(s) ==> IsSpace(s[j])
    ensures forall j :: TrimLead(s) + |Trim(s)| <= j < |s| ==> IsSpace(s[j])
    ensures Trim(s) != [] ==> !IsSpace(Trim(s)[0]) && !IsSpace(Trim(s)[|Trim(s)| - 1])
  {
    var t := TrimStart(s);
    var u := Trim(s);
    var n := TrimLead(s);
    TrimStartSlice(s);
    TrimEndSlice(t);
    assert t == s[n..];
    assert u == t[..|u|];
    assert u == s[n..n + |u|];
    forall j | n + |u| <= j < |s| ensures IsSpace(s[j]) {
      assert s[j] == t[j - n];
    }
  }

  /** How many leading `\s` characters `trim` removes. */
  function TrimLead(s: String): (a: nat)
    ensures a <= |s|
  {
    |s| - |TrimStart(s)|
  }

  function CountChar(s: String, c: char): (n: nat)
    ensures n <= |s|
  {
    if s == [] then 0 else (if s[0] == c then 1 else 0) + CountChar(s[1..], c)
  }

  /** `s.split(sep)` for a one-character separator: never empty. */
  function Split(s: String, sep: char): (parts: seq<String>)
    ensures |parts| >= 1
  {
    if s == [] then [[]]
    else
      var rest := Split(s[1..], sep);
      if s[0] == sep then [[]] + rest else [[s[0]] + rest[0]] + rest[1..]
  }

  /** `parts.join(sep)`. */
  function Join(parts: seq<String>, sep: String): String {
    if parts == [] then []
    else if |parts| == 1 then parts[0]
    else parts[0] + sep + Join(parts[1..], sep)
  }

  /** Splitting yields one more piece than there are separators. */
  lemma {:induction false} SplitCount(s: String, sep: char)
    ensures |Split(s, sep)| == CountChar(s, sep) + 1
  {
    if s != [] {
      SplitCount(s[1..], sep);
    }
  }

  /** No piece of a split contains the separator. */
  lemma {:induction false} SplitPiecesFree(s: String, sep: char)
    ensures forall k :: 0 <= k < |Split(s, sep)| ==> sep !in Split(s, sep)[k]
  {
    if s != [] {
      SplitPiecesFree(s[1..], sep);
    }
  }

  /** Joining the pieces with the separator gives back the string. */
  lemma {:induction false} SplitJoin(s: String, sep: char)
    ensures Join(Split(s, sep), [sep]) == s
  {
    if s != [] {
      var rest := Split(s[1..], sep);
      SplitJoin(s[1..], sep);
      if s[0] == sep {
        assert Split(s, sep) == [[]] + rest;
        assert Join([[]] + rest, [sep]) == [] + [sep] + Join(rest, [sep]);
      } else {
        JoinConsHead(s[0], rest, [sep]);
      }
    }
  }

  lemma JoinConsHead(c: char, parts: seq<String>, sep: String)
    requires |parts| >= 1
    ensures Join([[c] + parts[0]] + parts[1..], sep) == [c] + Join(parts, sep)
  {
    var ps := [[c] + parts[0]] + parts[1..];
    assert ps[1..] == parts[1..];
  }

  lemma Assoc(a: String, b: String, c: String)
    ensures (a + b) + c == a + (b + c)
  {
  }

  lemma SliceOfRight(a: String, b: String)
    ensures (a + b)[|a|..] == b
  {
  }

  lemma SliceOfShifted(a: String, b: String, i: nat, j: nat)
    requires i <= j <= |b|
    ensures (a + b)[|a| + i..|a| + j] == b[i..j]
  {
  }

  lemma SliceOfLeft(a: String, b: String, i: nat, j: nat)
    requires i <= j <= |a|
    ensures (a + b)[i..j] == a[i..j]
  {
  }

  // ---------------------------------------------------------------------------
  // Decimal numerals
  // ---------------------------------------------------------------------------

  function DigitChar(d: nat): (c: char)
    requires d < 10
    ensures IsDigit(c)
  {
    ('0' as int + d) as char
  }

  function DigitValue(c: char): (d: nat)
    requires IsDigit(c)
    ensures d < 10
  {
    c as int - '0' as int
  }

  /** `String(n)` for a non-negative integer. */
  function NatToString(n: nat): (r: String)
    ensures |r| >= 1
    ensures forall k :: 0 <= k < |r| ==> IsDigit(r[k])
  {
    if n < 10 then [DigitChar(n)] else NatToString(n / 10) + [DigitChar(n % 10)]
  }

  /** The value of a string of decimal digits (`parseInt` on a digit run). */
  function DecimalValue(s: String): (n: nat)
    requires forall k :: 0 <= k < |s| ==> IsDigit(s[k])
  {
    if s == [] then 0 else DecimalValue(s[..|s| - 1]) * 10 + DigitValue(s[|s| - 1])
  }

  function Pow10(k: nat): (p: nat)
    ensures p >= 1
  {
    if k == 0 then 1 else 10 * Pow10(k - 1)
  }

  /** Reading back a written number gives the number. */
  lemma {:induction false} NatToStringRoundTrip(n: nat)
    ensures DecimalValue(NatToString(n)) == n
  {
    if n >= 10 {
      NatToStringRoundTrip(n / 10);
      var r := NatToString(n);
      assert r[..|r| - 1] == NatToString(n / 10);
    }
  }

  /** A number below `10^k` has at most `k` digits. */
  lemma {:induction false} NatToStringLength(n: nat, k: nat)
    requires k >= 1 && n < Pow10(k)
    ensures |NatToString(n)| <= k
  {
    if n >= 10 {
      NatToStringLength(n / 10, k - 1);
    }
  }

  function Repeat(c: char, n: nat): (r: String)
    ensures |r| == n && forall k :: 0 <= k < n ==> r[k] == c
  {
    if n == 0 then [] else [c] + Repeat(c, n - 1)
  }

  /** `s.padStart(width, c)`: left-padded to `width`, never truncated. */
  function PadStart(s: String, width: nat, c: char): (r: String)
    ensures |r| == if |s| >= width then |s| else width
    ensures r[|r| - |s|..] == s
    ensures forall k :: 0 <= k < |r| - |s| ==> r[k] == c
  {
    if |s| >= width then s else Repeat(c, width - |s|) + s
  }

  // ---------------------------------------------------------------------------
  // Global replace
  // ---------------------------------------------------------------------------

  /** A match found at some index: where it ends (exclusive) and what replaces it. */
  datatype Hit = Hit(end: nat, out: String)

  /** A hand-written matcher for one regular expression: given the whole string and
      an index, the leftmost-first match starting exactly there, if any.  It sees the
      whole string, so `^`, `$` and look-behind context are available to it. */
  type Matcher = (String, nat) -> Option<Hit>

  /** `s.replace(/re/g, f)` from index `i` on: at each index either the match found
      there is replaced and scanning resumes after it, or the character is kept.
      None of the rewritten patterns can match the empty string. */
  function Rewrite(s: String, i: nat, m: Matcher): String
    decreases |s| - i
  {
    if i >= |s| then []
    else
      var h := m(s, i);
      if h.Some? && i < h.value.end <= |s| then h.value.out + Rewrite(s, h.value.end, m)
      else [s[i]] + Rewrite(s, i + 1, m)
  }

  function ReplaceAll(s: String, m: Matcher): String {
    Rewrite(s, 0, m)
  }

  /** `n` rounds of a clean-up pass `f`, as the source's fixed-count `for` loops run them. */
  function Iterate(f: String -> String, s: String, n: nat): String {
    if n == 0 then s else f(Iterate(f, s, n - 1))
  }

  /** Once a pass changes nothing, further passes change nothing. */
  lemma {:induction false} IterateFixed(f: String -> String, s: String, n: nat)
    requires f(s) == s
    ensures Iterate(f, s, n) == s
  {
    if n > 0 {
      IterateFixed(f, s, n - 1);
    }
  }

  /** `s.replace(/re/, f)` without the `g` flag: only the leftmost match. */
  function ReplaceFirst(s: String, m: Matcher): String {
    ReplaceFirstFrom(s, 0, m)
  }

  function ReplaceFirstFrom(s: String, i: nat, m: Matcher): String
    requires i <= |s|
    decreases |s| - i
  {
    if i == |s| then s
    else
      var h := m(s, i);
      if h.Some? && i < h.value.end <= |s| then s[..i] + h.value.out + s[h.value.end..]
      else ReplaceFirstFrom(s, i + 1, m)
  }

  /** A match at the very start is the one a non-global replace takes. */
  lemma ReplaceFirstAtStart(s: String, m: Matcher)
    requires |s| > 0 && m(s, 0).Some? && 0 < m(s, 0).value.end <= |s|
    ensures ReplaceFirst(s, m) == m(s, 0).value.out + s[m(s, 0).value.end..]
  {
    assert s[..0] == [];
  }

  /** A hit at `i` ending at `e` contributes its output, then the rewrite goes on from `e`. */
  lemma RewriteHit(s: String, i: nat, m: Matcher, e: nat, out: String)
    requires i < e <= |s| && m(s, i).Some? && m(s, i).value.end == e && m(s, i).value.out == out
    ensures Rewrite(s, i, m) == out + Rewrite(s, e, m)
  {
  }

  /** Where a matcher finds nothing over `[i, k)`, those characters are copied. */
  lemma {:induction false} RewriteSkip(s: String, i: nat, k: nat, m: Matcher)
    requires i <= k <= |s|
    requires forall j :: i <= j < k ==> m(s, j).None?
    ensures Rewrite(s, i, m) == s[i..k] + Rewrite(s, k, m)
    decreases k - i
  {
    if i < k {
      RewriteSkip(s, i + 1, k, m);
      calc {
        Rewrite(s, i, m);
        [s[i]] + Rewrite(s, i + 1, m);
        [s[i]] + (s[i + 1..k] + Rewrite(s, k, m));
        ([s[i]] + s[i + 1..k]) + Rewrite(s, k, m);
        { assert s[i..k] == [s[i]] + s[i + 1..k]; }
        s[i..k] + Rewrite(s, k, m);
      }
    } else {
      assert s[i..k] == [];
    }
  }

  /** Where a matcher finds nothing, a global replace changes nothing. */
  lemma {:induction false} RewriteNoHit(s: String, i: nat, m: Matcher)
    requires i <= |s|
    requires forall j :: i <= j < |s| ==> m(s, j).None?
    ensures Rewrite(s, i, m) == s[i..]
    decreases |s| - i
  {
    if i < |s| {
      RewriteNoHit(s, i + 1, m);
    }
  }

  lemma {:induction false} ReplaceFirstNoHit(s: String, i: nat, m: Matcher)
    requires i <= |s|
    requires forall j :: i <= j < |s| ==> m(s, j).None?
    ensures ReplaceFirstFrom(s, i, m) == s
    decreases |s| - i
  {
    if i < |s| {
      ReplaceFirstNoHit(s, i + 1, m);
    }
  }

  /** After `b`, a body with no early `lit`, then `lit`: the lazy search stops there. */
  lemma BodyPieces(s: String, b: nat, c: String, lit: String, rest: String)
    requires b <= |s| && s[b..] == c + lit + rest && NoEarlyCI(c, lit)
    ensures FindCI(s, b, lit) == Some(b + |c|) && s[b..b + |c|] == c
  {
    var closed := c + lit;
    SliceOfLeft(closed, rest, 0, |closed|);
    assert s[b..b + |closed|] == s[b..][0..|closed|];
    FindAfterBody(s, b, c, lit);
    SliceOfLeft(c, lit, 0, |c|);
    assert s[b..b + |c|] == s[b..b + |closed|][0..|c|];
  }

  /** `lit` (ignoring case) does not start anywhere inside `body` when `lit` follows
      it: a lazy `.*?lit` over `body + lit` stops exactly after `body`. */
  predicate NoEarlyCI(body: String, lit: String) {
    forall j :: 0 <= j < |body| ==> !HasAtCI(body + lit, j, lit)
  }

  lemma FindAfterBody(s: String, start: nat, body: String, lit: String)
    requires start + |body| + |lit| <= |s| && s[start..start + |body| + |lit|] == body + lit
    requires NoEarlyCI(body, lit)
    ensures FindCI(s, start, lit) == Some(start + |body|)
  {
    var t := body + lit;
    assert HasAtCI(s, start + |body|, lit) by {
      forall k | 0 <= k < |lit| ensures Lower(s[start + |body| + k]) == Lower(lit[k]) {
        assert s[start + |body| + k] == t[|body| + k];
      }
    }
    forall j | start <= j < start + |body| ensures !HasAtCI(s, j, lit) {
      HasAtCIInSlice(s, start, t, j, lit);
    }
    var f := FindCI(s, start, lit);
    assert f.Some?;
  }

  /** Inside a slice equal to `t`, occurrences are those of `t`, shifted. */
  lemma HasAtCIInSlice(s: String, start: nat, t: String, j: nat, lit: String)
    requires start + |t| <= |s| && s[start..start + |t|] == t
    requires start <= j && j + |lit| <= start + |t|
    ensures HasAtCI(s, j, lit) == HasAtCI(t, j - start, lit)
  {
    forall k | 0 <= k < |lit|
      ensures (Lower(s[j + k]) == Lower(lit[k])) == (Lower(t[j - start + k]) == Lower(lit[k]))
    {
      assert s[start..start + |t|][j - start + k] == s[j + k];
    }
  }

  /** An occurrence in a prefix is an occurrence in the whole. */
  lemma HasAtCILeft(a: String, b: String, i: nat, lit: String)
    requires HasAtCI(a, i, lit)
    ensures HasAtCI(a + b, i, lit)
  {
    forall k | 0 <= k < |lit| ensures Lower((a + b)[i + k]) == Lower(lit[k]) {
      assert (a + b)[i + k] == a[i + k];
    }
  }

  /** `lit` occurs nowhere in `s`, ignoring ASCII case. */
  predicate FreeOf(s: String, lit: String) {
    forall k :: 0 <= k <= |s| ==> !HasAtCI(s, k, lit)
  }

  /** A slice of a text without `lit` has none either. */
  lemma FreeOfSlice(s: String, a: nat, b: nat, lit: String)
    requires a <= b <= |s| && FreeOf(s, lit)
    ensures FreeOf(s[a..b], lit)
  {
    forall k | 0 <= k <= b - a ensures !HasAtCI(s[a..b], k, lit) {
      if HasAtCI(s[a..b], k, lit) {
        HasAtCIInSlice(s, a, s[a..b], a + k, lit);
      }
    }
  }

  /** Two texts without `lit` give none side by side when no occurrence can
      straddle the seam: the last character of `x` matches no position of `lit`
      but its last, or the first of `y` matches none but its first. */
  lemma FreeOfConcat(x: String, y: String, lit: String)
    requires FreeOf(x, lit) && FreeOf(y, lit)
    requires x == [] || y == []
      || (forall t :: 0 <= t < |lit| - 1 ==> Lower(x[|x| - 1]) != Lower(lit[t]))
      || (forall t :: 0 < t < |lit| ==> Lower(y[0]) != Lower(lit[t]))
    ensures FreeOf(x + y, lit)
  {
    var s := x + y;
    forall k | 0 <= k <= |s| ensures !HasAtCI(s, k, lit) {
      if k + |lit| > |s| {
      } else if k + |lit| <= |x| {
        assert s[0..|x|] == x;
        HasAtCIInSlice(s, 0, x, k, lit);
      } else if k >= |x| {
        assert s[|x|..|x| + |y|] == y;
        HasAtCIInSlice(s, |x|, y, k, lit);
      } else if forall t :: 0 <= t < |lit| - 1 ==> Lower(x[|x| - 1]) != Lower(lit[t]) {
        NotAtCI(s, k, lit, |x| - 1 - k);
      } else {
        NotAtCI(s, k, lit, |x| - k);
      }
    }
  }

  /** The pieces of a join without `lit` have none either. */
  lemma {:induction false} FreeOfJoin(parts: seq<String>, sep: String, lit: String)
    requires FreeOf(Join(parts, sep), lit)
    ensures forall k :: 0 <= k < |parts| ==> FreeOf(parts[k], lit)
    decreases |parts|
  {
    if |parts| > 1 {
      var j := Join(parts, sep);
      var rest := Join(parts[1..], sep);
      assert j == parts[0] + sep + rest;
      FreeOfSlice(j, 0, |parts[0]|, lit);
      assert j[0..|parts[0]|] == parts[0];
      FreeOfSlice(j, |parts[0]| + |sep|, |j|, lit);
      assert j[|parts[0]| + |sep|..|j|] == rest;
      FreeOfJoin(parts[1..], sep, lit);
      forall k | 1 <= k < |parts| ensures FreeOf(parts[k], lit) {
        assert parts[k] == parts[1..][k - 1];
      }
    }
  }

  /** Trimming and splitting keep a text without `lit` so. */
  lemma FreeOfTrim(s: String, lit: String)
    requires FreeOf(s, lit)
    ensures FreeOf(Trim(s), lit)
  {
    TrimSlice(s);
    FreeOfSlice(s, TrimLead(s), TrimLead(s) + |Trim(s)|, lit);
  }

  lemma FreeOfSplit(s: String, sep: char, lit: String)
    requires FreeOf(s, lit)
    ensures forall k :: 0 <= k < |Split(s, sep)| ==> FreeOf(Split(s, sep)[k], lit)
  {
    SplitJoin(s, sep);
    FreeOfJoin(Split(s, sep), [sep], lit);
  }

  /** A literal-string deletion like `s.replace(/lit/gi, "")`. */
  function DeleteCI(lit: String): Matcher {
    (s: String, i: nat) => if |lit| > 0 && HasAtCI(s, i, lit) then Some(Hit(i + |lit|, [])) else None
  }

  /** `s.replace(/OPEN[^>]*>/gi, "")`, `OPEN` being `<` and a tag name. */
  function DeleteOpenTag(open: String): Matcher {
    (s: String, i: nat) =>
      if HasAtCI(s, i, open) && FindChar(s, i + |open|, '>') < |s|
      then Some(Hit(FindChar(s, i + |open|, '>') + 1, [])) else None
  }

  /** `s.replace(/OPEN[^>]*>.*?CLOSE/gis, "")`: an element from its opening tag to
      the first closing tag after it. */
  function DeleteElement(open: String, close: String): Matcher {
    (s: String, i: nat) => ElementAt(open, close, s, i)
  }

  /** The match of `DeleteElement(open, close)` at `i`. */
  function ElementAt(open: String, close: String, s: String, i: nat): Option<Hit> {
    if HasAtCI(s, i, open) && FindChar(s, i + |open|, '>') < |s|
    then ElementClose(s, FindChar(s, i + |open|, '>') + 1, close)
    else None
  }

  /** The lazy body of an element starting at `b`, up to and including `close`. */
  function ElementClose(s: String, b: nat, close: String): Option<Hit>
    requires b <= |s|
  {
    match FindCI(s, b, close)
    case None => None
    case Some(c) => Some(Hit(c + |close|, []))
  }

  /** An opening tag is deleted up to and including the first `>` after its name. */
  lemma OpenTagDeleted(s: String, i: nat, open: String, t: nat)
    requires HasAtCI(s, i, open) && i + |open| <= t < |s| && s[t] == '>'
    requires forall j :: i + |open| <= j < t ==> s[j] != '>'
    ensures DeleteOpenTag(open)(s, i).Some? && DeleteOpenTag(open)(s, i).value.end == t + 1
    ensures DeleteOpenTag(open)(s, i).value.out == []
  {
    FindCharAt(s, i + |open|, t, '>');
  }

  /** A whole element goes, from its opening tag to the first closing tag after
      it, whatever the body holds in between. */
  lemma ElementDeleted(s: String, i: nat, open: String, t: nat, body: String, close: String)
    requires HasAtCI(s, i, open) && i + |open| <= t < |s| && s[t] == '>'
    requires forall j :: i + |open| <= j < t ==> s[j] != '>'
    requires HasAt(s, t + 1, body + close) && NoEarlyCI(body, close)
    ensures DeleteElement(open, close)(s, i).Some?
    ensures DeleteElement(open, close)(s, i).value.end == t + 1 + |body| + |close|
    ensures DeleteElement(open, close)(s, i).value.out == []
  {
    FindCharAt(s, i + |open|, t, '>');
    ElementCloseAt(s, t + 1, body, close);
  }

  /** The lazy body stops at the first `close`. */
  lemma ElementCloseAt(s: String, b: nat, body: String, close: String)
    requires HasAt(s, b, body + close) && NoEarlyCI(body, close)
    ensures ElementClose(s, b, close).Some?
    ensures ElementClose(s, b, close).value.end == b + |body| + |close|
    ensures ElementClose(s, b, close).value.out == []
  {
    FindAfterBody(s, b, body, close);
  }

  /** A literal replacement like `s.replace(/lit/gi, rep)`. */
  function ReplaceCI(lit: String, rep: String): Matcher {
    (s: String, i: nat) => if |lit| > 0 && HasAtCI(s, i, lit) then Some(Hit(i + |lit|, rep)) else None
  }

  /** The replacement string of `String.prototype.replace` with a string pattern:
      `$$`, `$&`, `` $` `` and `$'` are expanded, everything else is copied. */
  function Substitute(rep: String, matched: String, before: String, after: String): String
    decreases |rep|
  {
    if rep == [] then []
    else if |rep| >= 2 && rep[0] == '$' && rep[1] == '$' then "$" + Substitute(rep[2..], matched, before, after)
    else if |rep| >= 2 && rep[0] == '$' && rep[1] == '&' then matched + Substitute(rep[2..], matched, before, after)
    else if |rep| >= 2 && rep[0] == '$' && rep[1] == '`' then before + Substitute(rep[2..], matched, before, after)
    else if |rep| >= 2 && rep[0] == '$' && rep[1] == '\'' then after + Substitute(rep[2..], matched, before, after)
    else [rep[0]] + Substitute(rep[1..], matched, before, after)
  }

  /** Without a `$` the replacement string is inserted as it is. */
  lemma {:induction false} SubstitutePlain(rep: String, matched: String, before: String, after: String)
    requires '$' !in rep
    ensures Substitute(rep, matched, before, after) == rep
    decreases |rep|
  {
    if rep != [] {
      assert rep[0] != '$';
      assert '$' !in rep[1..] by {
        forall k | 0 <= k < |rep[1..]| ensures rep[1..][k] != '$' {
          assert rep[1..][k] == rep[k + 1];
        }
      }
      SubstitutePlain(rep[1..], matched, before, after);
    }
  }

  /** `s.replace(pat, rep)` with a string pattern: only the first occurrence. */
  function ReplaceString(s: String, pat: String, rep: String): (r: String)
    ensures IndexOf(s, pat) == -1 ==> r == s
  {
    var p := IndexOf(s, pat);
    if p == -1 then s
    else s[..p] + Substitute(rep, pat, s[..p], s[p + |pat|..]) + s[p + |pat|..]
  }
}
