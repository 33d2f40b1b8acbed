/**
 * Character classes and the few regular-expression building blocks the
 * parsers need: a leftmost search, an ordered alternation of literal labels,
 * greedy runs of one character class, and Python's `lower`, `upper`, `strip`,
 * `startswith` and `in` on strings.
 */
module Text {
  import opened Wrappers

  /** Python's `str.isspace`, which is also what `\s` and `strip()` use. */
  predicate IsSpace(c: char) {
    ('\U{9}' <= c <= '\U{D}') || ('\U{1C}' <= c <= '\U{20}') || c == '\U{85}' || c == '\U{A0}'
    || c == '\U{1680}' || ('\U{2000}' <= c <= '\U{200A}') || c == '\U{2028}' || c == '\U{2029}'
    || c == '\U{202F}' || c == '\U{205F}' || c == '\U{3000}'
  }

  predicate IsDigit(c: char) { '0' <= c <= '9' }

  function DigitValue(c: char): (d: nat)
    requires IsDigit(c)
    ensures d < 10
  {
    c as int - '0' as int
  }

  /** The character that shows the decimal digit `d`. */
  function DigitChar(d: nat): (c: char)
    requires d < 10
    ensures IsDigit(c) && DigitValue(c) == d
  {
    ('0' as int + d) as char
  }

  predicate IsLetter(c: char) { ('a' <= c <= 'z') || ('A' <= c <= 'Z') }

  /** `\w`: letters, digits and the underscore. */
  predicate IsWordChar(c: char) { IsLetter(c) || IsDigit(c) || c == '_' }

  function LowerChar(c: char): char {
    if 'A' <= c <= 'Z' then (c as int + 32) as char else c
  }

  function UpperChar(c: char): char {
    if 'a' <= c <= 'z' then (c as int - 32) as char else c
  }

  function Lower(s: string): (r: string)
    ensures |r| == |s| && forall k :: 0 <= k < |s| ==> r[k] == LowerChar(s[k])
  {
    seq(|s|, k requires 0 <= k < |s| => LowerChar(s[k]))
  }

  function Upper(s: string): (r: string)
    ensures |r| == |s| && forall k :: 0 <= k < |s| ==> r[k] == UpperChar(s[k])
  {
    seq(|s|, k requires 0 <= k < |s| => UpperChar(s[k]))
  }

  /** The literal `p` occurs in `s` at position `i`. */
  predicate At(s: string, i: nat, p: string) {
    i + |p| <= |s| && s[i..i + |p|] == p
  }

  /** `p` occurs at `i` when letters are compared without regard to case (`re.IGNORECASE`). */
  predicate AtIgnoringCase(s: string, i: nat, p: string) {
    i + |p| <= |s| && forall k :: 0 <= k < |p| ==> LowerChar(s[i + k]) == LowerChar(p[k])
  }

  predicate StartsWith(s: string, p: string) { At(s, 0, p) }

  /** Python's `p in s`. */
  predicate Contains(s: string, p: string) {
    exists i | 0 <= i <= |s| :: At(s, i, p)
  }

  /** `s` without its leading whitespace. */
  function TrimStart(s: string): (r: string)
    ensures |r| <= |s| && r == s[|s| - |r|..]
    ensures r == [] || !IsSpace(r[0])
    ensures forall k :: 0 <= k < |s| - |r| ==> IsSpace(s[k])
  {
    if s != [] && IsSpace(s[0]) then TrimStart(s[1..]) else s
  }

  /** `s` without its trailing whitespace. */
  function TrimEnd(s: string): (r: string)
    ensures |r| <= |s| && r == s[..|r|]
    ensures r == [] || !IsSpace(r[|r| - 1])
    ensures forall k :: |r| <= k < |s| ==> IsSpace(s[k])
  {
    if s != [] && IsSpace(s[|s| - 1]) then TrimEnd(s[..|s| - 1]) else s
  }

  /** Python's `s.strip()`: the middle of `s` left once whitespace is cut off both ends. */
  function Strip(s: string): (r: string)
    ensures r == [] || (!IsSpace(r[0]) && !IsSpace(r[|r| - 1]))
    ensures exists a, b :: 0 <= a <= b <= |s| && r == s[a..b]
  {
    var t := TrimStart(s);
    var r := TrimEnd(t);
    assert r == s[|s| - |t|..|s| - |t| + |r|];
    r
  }

  /** What `strip` cuts off either end of `s` is whitespace. */
  lemma StripCutsSpace(s: string)
    ensures exists a: nat, b: nat :: StrippedAt(s, Strip(s), a, b)
  {
    var t := TrimStart(s);
    var r := TrimEnd(t);
    var a, b := |s| - |t|, |s| - |t| + |r|;
    assert r == s[a..b];
    forall k | b <= k < |s|
      ensures IsSpace(s[k])
    {
      assert s[k] == t[k - a];
    }
    assert StrippedAt(s, Strip(s), a, b);
  }

  /** `r` is `s[a..b]` with only whitespace cut off in front of `a` and after `b`. */
  predicate StrippedAt(s: string, r: string, a: nat, b: nat) {
    && a <= b <= |s| && r == s[a..b]
    && (forall k :: 0 <= k < a ==> IsSpace(s[k]))
    && (forall k :: b <= k < |s| ==> IsSpace(s[k]))
  }

  /** The end of the longest run of characters satisfying `p` that starts at `i` (a greedy `[...]*`). */
  function SpanEnd(s: string, i: nat, p: char -> bool): (j: nat)
    requires i <= |s|
    ensures i <= j <= |s|
    ensures forall k :: i <= k < j ==> p(s[k])
    ensures j == |s| || !p(s[j])
    decreases |s| - i
  {
    if i < |s| && p(s[i]) then SpanEnd(s, i + 1, p) else i
  }

  /** A greedy `\s*` starting at `i`. */
  function SkipSpaces(s: string, i: nat): (j: nat)
    requires i <= |s|
    ensures i <= j <= |s|
    ensures forall k :: i <= k < j ==> IsSpace(s[k])
    ensures j == |s| || !IsSpace(s[j])
  {
    SpanEnd(s, i, IsSpace)
  }

  /** Only whitespace lies between `j` and `a`, so a greedy `\s*` from `j` can stop at `a`. */
  predicate SpacesBetween(s: string, j: nat, a: nat) {
    j <= a <= |s| && forall m :: j <= m < a ==> IsSpace(s[m])
  }

  /** A greedy `\s*` from `j` stops at the first character that is not whitespace. */
  lemma SkipSpacesStops(s: string, j: nat, b: nat)
    requires SpacesBetween(s, j, b) && b < |s| && !IsSpace(s[b])
    ensures SkipSpaces(s, j) == b
  {
  }

  /** Where a search found its match, and what the match yielded. */
  datatype Hit<T> = Hit(pos: nat, value: T)

  /**
   * `re.search`: the leftmost position, from `from` on, at which `matchAt`
   * succeeds. A pattern tried at every position in turn, stopping at the first
   * success, is exactly how the regular-expression engine searches.
   */
  function FindFirst<T>(s: string, from: nat, matchAt: (string, nat) -> Option<T>): (r: Option<Hit<T>>)
    requires from <= |s|
    ensures r.Some? ==> from <= r.value.pos <= |s| && matchAt(s, r.value.pos) == Some(r.value.value)
    ensures r.Some? ==> forall k :: from <= k < r.value.pos ==> matchAt(s, k).None?
    ensures r.None? ==> forall k :: from <= k <= |s| ==> matchAt(s, k).None?
    decreases |s| - from
  {
    match matchAt(s, from)
    case Some(v) => Some(Hit(from, v))
    case None => if from == |s| then None else FindFirst(s, from + 1, matchAt)
  }

  /**
   * An ordered alternation of literal labels followed by a common tail,
   * `(?:L1|L2|...)tail`, tried at `i` from the label `labels[k]` on: the
   * index of the first label in order that occurs at `i` and after which
   * the tail matches (`follows`).
   */
  function FirstLabelFrom(s: string, i: nat, labels: seq<string>, follows: (string, nat) -> bool, k: nat): (r: Option<nat>)
    ensures r.Some? ==> k <= r.value < |labels| && At(s, i, labels[r.value]) && follows(s, i + |labels[r.value]|)
    ensures r.Some? ==> forall k' | k <= k' < r.value :: !(At(s, i, labels[k']) && follows(s, i + |labels[k']|))
    ensures r.None? ==> forall k' | k <= k' < |labels| :: !(At(s, i, labels[k']) && follows(s, i + |labels[k']|))
    decreases |labels| - k
  {
    if k >= |labels| then None
    else if At(s, i, labels[k]) && follows(s, i + |labels[k]|) then Some(k)
    else FirstLabelFrom(s, i, labels, follows, k + 1)
  }

  function FirstLabel(s: string, i: nat, labels: seq<string>, follows: (string, nat) -> bool): Option<nat> {
    FirstLabelFrom(s, i, labels, follows, 0)
  }

  /**
   * `re.search` of `(?:L1|L2|...)tail` fails only when no label occurrence
   * is followed by a match of the tail.
   */
  lemma LabelledSearchFails(s: string, labels: seq<string>, follows: (string, nat) -> bool, matchAt: (string, nat) -> Option<nat>)
    requires forall i: nat :: matchAt(s, i) == FirstLabel(s, i, labels, follows)
    requires FindFirst<nat>(s, 0, matchAt).None?
    ensures forall i: nat, k | i <= |s| && 0 <= k < |labels| && At(s, i, labels[k]) :: !follows(s, i + |labels[k]|)
  {
    forall i: nat, k | i <= |s| && 0 <= k < |labels| && At(s, i, labels[k])
      ensures !follows(s, i + |labels[k]|)
    {
      assert matchAt(s, i).None?;
      assert matchAt(s, i) == FirstLabel(s, i, labels, follows);
    }
  }

  /**
   * When it succeeds, the match is the label `labels[h.value]` at the
   * leftmost position `h.pos` where a label is followed by a match of the tail.
   */
  lemma LabelledSearchHit(s: string, labels: seq<string>, follows: (string, nat) -> bool, matchAt: (string, nat) -> Option<nat>)
    requires forall i: nat :: matchAt(s, i) == FirstLabel(s, i, labels, follows)
    requires FindFirst<nat>(s, 0, matchAt).Some?
    ensures var h := FindFirst<nat>(s, 0, matchAt).value;
      h.value < |labels| && At(s, h.pos, labels[h.value]) && follows(s, h.pos + |labels[h.value]|)
  {
    var h := FindFirst<nat>(s, 0, matchAt).value;
    assert matchAt(s, h.pos) == Some(h.value);
    assert FirstLabel(s, h.pos, labels, follows) == Some(h.value);
  }

  /** Before the hit, no label occurrence is followed by what the pattern needs. */
  lemma LabelledSearchBefore(s: string, labels: seq<string>, follows: (string, nat) -> bool, matchAt: (string, nat) -> Option<nat>)
    requires forall i: nat :: matchAt(s, i) == FirstLabel(s, i, labels, follows)
    requires FindFirst<nat>(s, 0, matchAt).Some?
    ensures var h := FindFirst<nat>(s, 0, matchAt).value;
      forall i: nat, k | i < h.pos && 0 <= k < |labels| && At(s, i, labels[k]) :: !follows(s, i + |labels[k]|)
  {
    var h := FindFirst<nat>(s, 0, matchAt).value;
    forall i: nat, k | i < h.pos && 0 <= k < |labels| && At(s, i, labels[k])
      ensures !follows(s, i + |labels[k]|)
    {
      assert matchAt(s, i).None?;
      assert matchAt(s, i) == FirstLabel(s, i, labels, follows);
    }
  }

  /** The token occurs at `i`, compared with or without regard to case. */
  predicate TokenOccurs(s: string, i: nat, token: string, ignoreCase: bool) {
    if ignoreCase then AtIgnoringCase(s, i, token) else At(s, i, token)
  }

  /**
   * An ordered alternation of literal tokens, each standing for a value: the
   * value of the first token in `table` that occurs at `i`.
   */
  function TokenAt<V>(s: string, i: nat, table: seq<(string, V)>, ignoreCase: bool): (r: Option<V>)
    ensures r.Some? ==> exists k :: 0 <= k < |table| && r.value == table[k].1 && TokenOccurs(s, i, table[k].0, ignoreCase)
    ensures r.None? ==> forall k :: 0 <= k < |table| ==> !TokenOccurs(s, i, table[k].0, ignoreCase)
    decreases |table|
  {
    if table == [] then None
    else if TokenOccurs(s, i, table[0].0, ignoreCase) then Some(table[0].1)
    else TokenAt(s, i, table[1..], ignoreCase)
  }

  /**
   * A pattern tried at position `i` whose match ends with a capture of width
   * `w`: it yields where the capture starts, after `i` and inside `s`, and
   * the capture has the shape `ok`.
   */
  predicate CapturesInside(s: string, w: nat, ok: (string, nat) -> bool, matchAt: (string, nat) -> Option<nat>) {
    forall i | 0 <= i <= |s| :: matchAt(s, i).Some? ==>
      i < matchAt(s, i).value && matchAt(s, i).value + w <= |s| && ok(s, matchAt(s, i).value)
  }

  /**
   * `re.findall` of such a pattern from `from`: where each capture starts.
   * Each search resumes at the end of the previous match.
   */
  function FindAll(s: string, from: nat, w: nat, ok: (string, nat) -> bool, matchAt: (string, nat) -> Option<nat>): (r: seq<nat>)
    requires from <= |s| && CapturesInside(s, w, ok, matchAt)
    ensures forall k :: 0 <= k < |r| ==> from < r[k] && r[k] + w <= |s| && ok(s, r[k])
    decreases |s| - from
  {
    match FindFirst<nat>(s, from, matchAt)
    case None => []
    case Some(hit) =>
      assert matchAt(s, hit.pos) == Some(hit.value);
      assert hit.pos < hit.value && hit.value + w <= |s|;
      [hit.value] + FindAll(s, hit.value + w, w, ok, matchAt)
  }

  /**
   * One step of `re.findall`: no capture exactly when the pattern matches
   * nowhere; otherwise the first is the capture of the leftmost match and the
   * rest are found from the end of that match.
   */
  lemma {:induction false} FindAllStep(s: string, from: nat, w: nat, ok: (string, nat) -> bool, matchAt: (string, nat) -> Option<nat>)
    requires from <= |s| && CapturesInside(s, w, ok, matchAt)
    ensures var r := FindAll(s, from, w, ok, matchAt);
      && (r == [] <==> forall i :: from <= i <= |s| ==> matchAt(s, i).None?)
      && (r != [] ==> exists i :: (from <= i < r[0] && matchAt(s, i) == Some(r[0])
                                   && forall i' :: from <= i' < i ==> matchAt(s, i').None?))
      && (r != [] ==> r[1..] == FindAll(s, r[0] + w, w, ok, matchAt))
  {
    var r := FindAll(s, from, w, ok, matchAt);
    match FindFirst<nat>(s, from, matchAt)
    case None =>
    case Some(hit) =>
      assert matchAt(s, hit.pos) == Some(hit.value);
      assert r == [hit.value] + FindAll(s, hit.value + w, w, ok, matchAt);
  }

  /** The captures appear in order of position and do not overlap. */
  lemma {:induction false} FindAllInOrder(s: string, from: nat, w: nat, ok: (string, nat) -> bool, matchAt: (string, nat) -> Option<nat>)
    requires from <= |s| && CapturesInside(s, w, ok, matchAt)
    ensures var r := FindAll(s, from, w, ok, matchAt);
      forall k :: 0 <= k < |r| - 1 ==> r[k] + w <= r[k + 1]
    decreases |s| - from
  {
    FindAllStep(s, from, w, ok, matchAt);
    var r := FindAll(s, from, w, ok, matchAt);
    if r != [] {
      var rest := r[1..];
      FindAllInOrder(s, r[0] + w, w, ok, matchAt);
      forall k | 0 <= k < |r| - 1
        ensures r[k] + w <= r[k + 1]
      {
        assert r[k + 1] == rest[k];
        if k > 0 {
          assert r[k] == rest[k - 1];
        }
      }
    }
  }

  /** Every capture is what the pattern, tried at some position at or after `from`, captures. */
  lemma {:induction false} FindAllSound(s: string, from: nat, w: nat, ok: (string, nat) -> bool, matchAt: (string, nat) -> Option<nat>)
    requires from <= |s| && CapturesInside(s, w, ok, matchAt)
    ensures var r := FindAll(s, from, w, ok, matchAt);
      forall k :: 0 <= k < |r| ==> exists i :: from <= i < r[k] && matchAt(s, i) == Some(r[k])
    decreases |s| - from
  {
    FindAllStep(s, from, w, ok, matchAt);
    var r := FindAll(s, from, w, ok, matchAt);
    if r != [] {
      var rest := r[1..];
      FindAllSound(s, r[0] + w, w, ok, matchAt);
      forall k | 1 <= k < |r|
        ensures exists i :: from <= i < r[k] && matchAt(s, i) == Some(r[k])
      {
        assert r[k] == rest[k - 1];
        var i :| r[0] + w <= i < rest[k - 1] && matchAt(s, i) == Some(rest[k - 1]);
      }
    }
  }
}
