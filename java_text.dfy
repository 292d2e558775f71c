/**
 * The three pieces of java.lang.String behaviour the search dialog relies on:
 * trim(), split("\\|\\|") and String.join("||", ...).
 */
module JavaText {
  import opened Wrappers

  /** String.trim() strips every char at or below U+0020 from both ends. */
  predicate IsTrimmable(c: char) {
    c <= ' '
  }

  function TrimStart(s: string): (r: string)
    ensures |r| <= |s| && r == s[|s| - |r|..]
    ensures r != [] ==> !IsTrimmable(r[0])
    ensures forall i :: 0 <= i < |s| - |r| ==> IsTrimmable(s[i])
  {
    if s != [] && IsTrimmable(s[0]) then TrimStart(s[1..]) else s
  }

  function TrimEnd(s: string): (r: string)
    ensures |r| <= |s| && r == s[..|r|]
    ensures r != [] ==> !IsTrimmable(r[|r| - 1])
    ensures forall i :: |r| <= i < |s| ==> IsTrimmable(s[i])
  {
    if s != [] && IsTrimmable(s[|s| - 1]) then TrimEnd(s[..|s| - 1]) else s
  }

  /** String.trim(): strips trimmable chars from both ends. */
  function Trim(s: string): (r: string)
    ensures |r| <= |s|
    ensures r != [] ==> !IsTrimmable(r[0]) && !IsTrimmable(r[|r| - 1])
  {
    TrimEnd(TrimStart(s))
  }

  /** trim() yields the empty string exactly when every char of s is trimmable. */
  lemma TrimEmptyIffAllTrimmable(s: string)
    ensures Trim(s) == [] <==> forall i :: 0 <= i < |s| ==> IsTrimmable(s[i])
  {
    var t := TrimStart(s);
    assert t != [] ==> s[|s| - |t|] == t[0];
  }

  /** `s.trim().isEmpty()` */
  predicate IsBlank(s: string) {
    Trim(s) == []
  }

  /** `s == null || s.trim().isEmpty()` */
  predicate IsNullOrBlank(s: Option<string>) {
    s.None? || IsBlank(s.value)
  }

  const Delimiter: string := "||"

  /** The regular expression `\|\|` matches at position k of s. */
  predicate DelimiterAt(s: string, k: int) {
    0 <= k && k + 1 < |s| && s[k] == '|' && s[k + 1] == '|'
  }

  /** The leftmost match of `\|\|` in s, as java.util.regex.Matcher.find() reports it. */
  function FindDelimiter(s: string): (r: Option<nat>)
    ensures r.Some? ==> DelimiterAt(s, r.value)
    ensures r.Some? ==> forall j :: 0 <= j < r.value ==> !DelimiterAt(s, j)
    ensures r.None? ==> forall j :: 0 <= j < |s| ==> !DelimiterAt(s, j)
  {
    if |s| < 2 then None
    else if DelimiterAt(s, 0) then Some(0)
    else
      assert forall j :: 1 <= j < |s| ==> DelimiterAt(s, j) == DelimiterAt(s[1..], j - 1);
      match FindDelimiter(s[1..])
      case None => None
      case Some(k) => Some(k + 1)
  }

  /** The pieces between successive non-overlapping leftmost matches, empty ones included. */
  function Fragments(s: string): (r: seq<string>)
    ensures |r| >= 1
    ensures Join(r) == s
    decreases |s|
  {
    match FindDelimiter(s)
    case None => [s]
    case Some(k) =>
      var rest := Fragments(s[k + 2..]);
      assert ([s[..k]] + rest)[1..] == rest;
      assert s == s[..k] + Delimiter + s[k + 2..];
      [s[..k]] + rest
  }

  /**
   * Each fragment but the last is cut at the leftmost delimiter: followed by the
   * delimiter, it first matches right after itself. The last fragment holds no match.
   * With `Join(r) == s` this fixes the fragments of every string.
   */
  lemma {:induction false} FragmentsLeftmost(s: string)
    ensures var r := Fragments(s);
            FindDelimiter(r[|r| - 1]).None? &&
            forall i :: 0 <= i < |r| - 1 ==> FindDelimiter(r[i] + Delimiter) == Some(|r[i]|)
    decreases |s|
  {
    match FindDelimiter(s)
    case None =>
    case Some(k) =>
      FragmentsLeftmost(s[k + 2..]);
      LeftmostHead(s, k);
      var rest := Fragments(s[k + 2..]);
      var r := [s[..k]] + rest;
      assert Fragments(s) == r;
      assert r[|r| - 1] == rest[|rest| - 1];
      forall i | 0 <= i < |r| - 1 ensures FindDelimiter(r[i] + Delimiter) == Some(|r[i]|) {
        if i > 0 {
          assert r[i] == rest[i - 1];
        }
      }
  }

  /** The piece before the leftmost match, followed by the delimiter, first matches right after itself. */
  lemma LeftmostHead(s: string, k: nat)
    requires FindDelimiter(s) == Some(k)
    ensures FindDelimiter(s[..k] + Delimiter) == Some(k)
  {
    var head := s[..k] + Delimiter;
    assert DelimiterAt(s, k);
    forall j | 0 <= j < k ensures !DelimiterAt(head, j) {
      assert head[j] == s[j] && head[j + 1] == s[j + 1];
      assert !DelimiterAt(s, j);
    }
    assert DelimiterAt(head, k);
  }

  /** split with limit 0 removes the trailing empty strings, and only those. */
  function DropTrailingEmpty(xs: seq<string>): (r: seq<string>)
    ensures r <= xs
    ensures r == [] || r[|r| - 1] != ""
    ensures forall i :: |r| <= i < |xs| ==> xs[i] == ""
  {
    if xs != [] && xs[|xs| - 1] == "" then DropTrailingEmpty(xs[..|xs| - 1]) else xs
  }

  /**
   * `s.split("\\|\\|")`: with no match the whole input is the only element (so ""
   * splits to [""]); otherwise the fragments without trailing empty ones. A leading
   * empty fragment is kept.
   */
  function Split(s: string): (r: seq<string>)
    ensures FindDelimiter(s).None? ==> r == [s]
    ensures r == [] || r[|r| - 1] != "" || s == ""
  {
    if FindDelimiter(s).None? then [s] else DropTrailingEmpty(Fragments(s))
  }

  /** `String.join("||", xs)`; no escaping of delimiters inside elements. */
  function Join(xs: seq<string>): (r: string)
    ensures xs == [] ==> r == ""
    ensures |xs| >= 2 ==> DelimiterAt(r, |xs[0]|)
  {
    if xs == [] then "" else if |xs| == 1 then xs[0] else xs[0] + Delimiter + Join(xs[1..])
  }

  /** No element contains the delimiter character. */
  predicate NoBar(xs: seq<string>) {
    forall i :: 0 <= i < |xs| ==> '|' !in xs[i]
  }

  /** The first delimiter of `a + "||" + b` is the one Join put after a, when a has no '|'. */
  lemma FindDelimiterAfterBarFree(a: string, b: string)
    requires '|' !in a
    ensures FindDelimiter(a + Delimiter + b) == Some(|a|)
  {
    var s := a + Delimiter + b;
    assert DelimiterAt(s, |a|);
    assert forall j :: 0 <= j < |a| ==> s[j] == a[j];
  }

  /** Cutting a join of '|'-free elements at every delimiter gives the elements back. */
  lemma {:induction false} FragmentsOfJoin(xs: seq<string>)
    requires xs != [] && NoBar(xs)
    ensures Fragments(Join(xs)) == xs
  {
    if |xs| == 1 {
      assert forall j :: 0 <= j < |xs[0]| ==> xs[0][j] != '|';
    } else {
      var rest := Join(xs[1..]);
      var s := xs[0] + Delimiter + rest;
      assert Join(xs) == s;
      assert '|' !in xs[0];
      FindDelimiterAfterBarFree(xs[0], rest);
      assert s[..|xs[0]|] == xs[0];
      assert s[|xs[0]| + 2..] == rest;
      assert NoBar(xs[1..]) by {
        forall i | 0 <= i < |xs[1..]| ensures '|' !in xs[1..][i] {
          assert xs[1..][i] == xs[i + 1];
        }
      }
      FragmentsOfJoin(xs[1..]);
      assert Fragments(s) == [xs[0]] + Fragments(rest);
      assert xs == [xs[0]] + xs[1..];
    }
  }

  /**
   * Round trip of the persisted encoding: split undoes join for a non-empty list whose
   * elements have no '|' and whose last element is not empty.
   */
  lemma SplitJoinRoundTrip(xs: seq<string>)
    requires xs != [] && NoBar(xs) && xs[|xs| - 1] != ""
    ensures Split(Join(xs)) == xs
  {
    FragmentsOfJoin(xs);
    if |xs| >= 2 {
      assert FindDelimiter(Join(xs)).Some? by { assert DelimiterAt(Join(xs), |xs[0]|); }
      assert DropTrailingEmpty(xs) == xs;
    }
  }
}
