/**
 * The PHP string built-ins the shim relies on, over byte strings.
 * A PHP string is a sequence of bytes; here each byte is one `char`.
 * Case mapping is ASCII only, as `strtolower`, `strtoupper` and `stripos`
 * are locale-independent since PHP 8.2.
 */
module PhpStrings {
  import opened Wrappers

  function LowerChar(c: char): char {
    if 'A' <= c <= 'Z' then (c as int + 32) as char else c
  }

  function UpperChar(c: char): char {
    if 'a' <= c <= 'z' then (c as int - 32) as char else c
  }

  /** strtolower */
  function ToLower(s: string): (r: string)
    ensures |r| == |s|
    ensures forall i :: 0 <= i < |s| ==> r[i] == LowerChar(s[i])
  {
    seq(|s|, i requires 0 <= i < |s| => LowerChar(s[i]))
  }

  /** strtoupper */
  function ToUpper(s: string): (r: string)
    ensures |r| == |s|
    ensures forall i :: 0 <= i < |s| ==> r[i] == UpperChar(s[i])
  {
    seq(|s|, i requires 0 <= i < |s| => UpperChar(s[i]))
  }

  /** str_replace with a one-character search and a one-character replacement */
  function ReplaceChar(s: string, from: char, to: char): (r: string)
    ensures |r| == |s|
    ensures forall i :: 0 <= i < |s| ==> r[i] == (if s[i] == from then to else s[i])
  {
    seq(|s|, i requires 0 <= i < |s| => if s[i] == from then to else s[i])
  }

  /** `d` occurs in `s` starting at index `i`. */
  predicate OccursAt(s: string, d: string, i: nat) {
    i + |d| <= |s| && s[i..i + |d|] == d
  }

  predicate Contains(s: string, d: string) {
    exists i: nat | i <= |s| :: OccursAt(s, d, i)
  }

  /** The first occurrence of `d` in `s` at or after `from`. */
  function IndexFrom(s: string, d: string, from: nat): (r: Option<nat>)
    ensures r.Some? ==> from <= r.value && OccursAt(s, d, r.value)
    ensures r.Some? ==> forall j: nat :: from <= j < r.value ==> !OccursAt(s, d, j)
    ensures r.None? ==> forall j: nat :: from <= j ==> !OccursAt(s, d, j)
    decreases |s| - from
  {
    if from + |d| > |s| then None
    else if s[from..from + |d|] == d then Some(from)
    else IndexFrom(s, d, from + 1)
  }

  /** strpos: `None` stands for PHP's `false`. */
  function IndexOf(s: string, d: string): (r: Option<nat>)
    ensures r.Some? ==> OccursAt(s, d, r.value)
    ensures r.Some? ==> forall j: nat :: j < r.value ==> !OccursAt(s, d, j)
    ensures r.None? <==> !Contains(s, d)
  {
    IndexFrom(s, d, 0)
  }

  /** stripos(haystack, needle) !== false */
  predicate ContainsIgnoreCase(haystack: string, needle: string) {
    IndexOf(ToLower(haystack), ToLower(needle)).Some?
  }

  /** implode */
  function Implode(d: string, pieces: seq<string>): string
    decreases |pieces|
  {
    if |pieces| == 0 then ""
    else if |pieces| == 1 then pieces[0]
    else pieces[0] + d + Implode(d, pieces[1..])
  }

  /** explode without a limit: the pieces between the occurrences of `d`, left to right. */
  function Explode(d: string, s: string): (r: seq<string>)
    requires |d| > 0
    ensures |r| >= 1
    ensures Implode(d, r) == s
    ensures forall k :: 0 <= k < |r| ==> !Contains(r[k], d)
    ensures |r| > 1 ==> IndexOf(s, d) == Some(|r[0]|)
    decreases |s|
  {
    match IndexOf(s, d)
    case None => [s]
    case Some(i) =>
      var head, rest := s[..i], Explode(d, s[i + |d|..]);
      assert s == head + d + s[i + |d|..] by {
        assert s[i..i + |d|] == d;
      }
      assert !Contains(head, d) by {
        forall j: nat | OccursAt(head, d, j) ensures false {
          assert s[j..j + |d|] == head[j..j + |d|];
          assert OccursAt(s, d, j);
        }
      }
      [head] + rest
  }

  /**
   * Every split is at the leftmost occurrence: the `k`-th piece ends where
   * the delimiter first occurs in the text from that piece on.
   */
  lemma {:induction false} ExplodeEachLeftmost(d: string, s: string, k: nat)
    requires |d| > 0 && k + 1 < |Explode(d, s)|
    ensures IndexOf(Implode(d, Explode(d, s)[k..]), d) == Some(|Explode(d, s)[k]|)
    decreases |s|
  {
    var i := IndexOf(s, d).value;
    var rest := s[i + |d|..];
    if k > 0 {
      assert Explode(d, s)[k..] == Explode(d, rest)[k - 1..];
      ExplodeEachLeftmost(d, rest, k - 1);
    } else {
      assert Explode(d, s)[0..] == Explode(d, s);
    }
  }

  /** A delimiter that first occurs right after `a` splits off `a` as the first piece. */
  lemma ExplodeSplit(d: string, a: string, b: string)
    requires |d| > 0
    requires forall j: nat :: j < |a| ==> !OccursAt(a + d + b, d, j)
    ensures Explode(d, a + d + b) == [a] + Explode(d, b)
  {
    var s := a + d + b;
    assert s[|a|..|a| + |d|] == d;
    assert OccursAt(s, d, |a|);
    assert IndexOf(s, d) == Some(|a|);
    assert s[..|a|] == a;
    assert s[|a| + |d|..] == b;
  }

  /** A string without the delimiter is a single piece. */
  lemma ExplodeWhole(d: string, s: string)
    requires |d| > 0 && !Contains(s, d)
    ensures Explode(d, s) == [s]
  {
  }

  /** explode with limit 2: the text before the first occurrence of `d` and, when there is one, the text after it. */
  function ExplodeOnce(d: string, s: string): (r: (string, Option<string>))
    requires |d| > 0
    ensures r.1.None? ==> r.0 == s && !Contains(s, d)
    ensures r.1.Some? ==> s == r.0 + d + r.1.value && !Contains(r.0, d)
    ensures r.1.Some? ==> IndexOf(s, d) == Some(|r.0|)
  {
    var pieces := Explode(d, s);
    if |pieces| == 1 then (s, None)
    else (pieces[0], Some(Implode(d, pieces[1..])))
  }

  /** The characters PHP's `trim` strips by default: space, tab, LF, CR, NUL, vertical tab. */
  predicate IsTrimmable(c: char) {
    c == ' ' || c == '\t' || c == '\n' || c == '\r' || c == '\0' || c == '\U{000B}'
  }

  predicate IsCrOrLf(c: char) {
    c == '\r' || c == '\n'
  }

  /** rtrim($s, "\r\n"): every trailing CR and LF goes, not just one line ending. */
  function TrimCrLfRight(s: string): (r: string)
    ensures |r| <= |s| && s[..|r|] == r
    ensures forall i :: |r| <= i < |s| ==> IsCrOrLf(s[i])
    ensures r == [] || !IsCrOrLf(r[|r| - 1])
    decreases |s|
  {
    if |s| > 0 && IsCrOrLf(s[|s| - 1]) then TrimCrLfRight(s[..|s| - 1]) else s
  }

  /** The first index at or after `i` that `trim` keeps, or `|s|`. */
  function FirstKept(s: string, i: nat): (k: nat)
    requires i <= |s|
    ensures i <= k <= |s|
    ensures forall j :: i <= j < k ==> IsTrimmable(s[j])
    ensures k == |s| || !IsTrimmable(s[k])
    decreases |s| - i
  {
    if i == |s| || !IsTrimmable(s[i]) then i else FirstKept(s, i + 1)
  }

  /** One past the last index before `e` that `trim` keeps, or 0. */
  function EndKept(s: string, e: nat): (k: nat)
    requires e <= |s|
    ensures k <= e
    ensures forall j :: k <= j < e ==> IsTrimmable(s[j])
    ensures k == 0 || !IsTrimmable(s[k - 1])
    decreases e
  {
    if e == 0 || !IsTrimmable(s[e - 1]) then e else EndKept(s, e - 1)
  }

  /** trim: the text between the leading and the trailing run of trimmable characters. */
  function Trim(s: string): (r: string)
    ensures r == [] || (!IsTrimmable(r[0]) && !IsTrimmable(r[|r| - 1]))
  {
    var a, b := FirstKept(s, 0), EndKept(s, |s|);
    if a < b then s[a..b] else ""
  }


  predicate AllTrimmable(s: string) {
    forall i :: 0 <= i < |s| ==> IsTrimmable(s[i])
  }

  /** `trim` removes exactly the surrounding whitespace: padding on either side of a text that starts and ends with kept characters is all that goes. */
  lemma TrimPadding(pre: string, core: string, post: string)
    requires AllTrimmable(pre) && AllTrimmable(post)
    requires core == [] || (!IsTrimmable(core[0]) && !IsTrimmable(core[|core| - 1]))
    ensures Trim(pre + core + post) == core
  {
    var s := pre + core + post;
    if core == [] {
      assert AllTrimmable(s) by {
        forall i | 0 <= i < |s| ensures IsTrimmable(s[i]) {
          if i < |pre| { assert s[i] == pre[i]; } else { assert s[i] == post[i - |pre|]; }
        }
      }
      assert FirstKept(s, 0) == |s|;
    } else {
      FirstKeptAt(s, 0, |pre|);
      EndKeptAt(s, |s|, |pre| + |core|);
      assert s[|pre|..|pre| + |core|] == core;
    }
  }

  lemma {:induction false} FirstKeptAt(s: string, i: nat, k: nat)
    requires i <= k < |s| && !IsTrimmable(s[k])
    requires forall j :: i <= j < k ==> IsTrimmable(s[j])
    ensures FirstKept(s, i) == k
    decreases k - i
  {
    if i < k {
      FirstKeptAt(s, i + 1, k);
    }
  }

  lemma {:induction false} EndKeptAt(s: string, e: nat, k: nat)
    requires 0 < k <= e <= |s| && !IsTrimmable(s[k - 1])
    requires forall j :: k <= j < e ==> IsTrimmable(s[j])
    ensures EndKept(s, e) == k
    decreases e - k
  {
    if k < e {
      EndKeptAt(s, e - 1, k);
    }
  }
}
