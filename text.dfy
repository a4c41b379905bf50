/** The pieces of JavaScript string semantics the importer relies on:
    the `\s` class and `String.prototype.trim`, ASCII case mapping,
    `Array.prototype.join` and `String.prototype.split(/\s+/)`. */
module Text {

  /** The characters matched by `\s` and removed by `trim`: the ECMAScript
      WhiteSpace and LineTerminator code points. */
  predicate IsSpace(c: char) {
    || c == ' ' || c == '\t' || c == '\n' || c == '\r' || c == '\U{000B}' || c == '\U{000C}'
    || c == '\U{00A0}' || c == '\U{1680}' || ('\U{2000}' <= c <= '\U{200A}')
    || c == '\U{2028}' || c == '\U{2029}' || c == '\U{202F}' || c == '\U{205F}'
    || c == '\U{3000}' || c == '\U{FEFF}'
  }

  predicate IsNotSpace(c: char) { !IsSpace(c) }

  /** The characters that `.` does not match. */
  predicate IsLineTerminator(c: char) {
    c == '\n' || c == '\r' || c == '\U{2028}' || c == '\U{2029}'
  }

  predicate IsAsciiLetter(c: char) { 'A' <= c <= 'Z' || 'a' <= c <= 'z' }

  /** The class `\d`. */
  predicate IsDigit(c: char) { '0' <= c <= '9' }

  function ToUpper(c: char): (r: char)
    ensures 'a' <= c <= 'z' ==> 'A' <= r <= 'Z' && r as int == c as int - 32
    ensures !('a' <= c <= 'z') ==> r == c
  {
    if 'a' <= c <= 'z' then (c as int - 32) as char else c
  }

  function ToLower(c: char): (r: char)
    ensures 'A' <= c <= 'Z' ==> 'a' <= r <= 'z' && r as int == c as int + 32
    ensures !('A' <= c <= 'Z') ==> r == c
  {
    if 'A' <= c <= 'Z' then (c as int + 32) as char else c
  }

  function Upper(s: string): (r: string)
    ensures |r| == |s|
    ensures forall i :: 0 <= i < |s| ==> r[i] == ToUpper(s[i])
  {
    if s == [] then [] else [ToUpper(s[0])] + Upper(s[1..])
  }

  function Lower(s: string): (r: string)
    ensures |r| == |s|
    ensures forall i :: 0 <= i < |s| ==> r[i] == ToLower(s[i])
  {
    if s == [] then [] else [ToLower(s[0])] + Lower(s[1..])
  }

  lemma UpperConcat(a: string, b: string)
    ensures Upper(a + b) == Upper(a) + Upper(b)
  {
    var u, ua, ub := Upper(a + b), Upper(a), Upper(b);
    var v := ua + ub;
    forall i | 0 <= i < |u| ensures u[i] == v[i] {
      if i < |a| {
        assert u[i] == ToUpper(a[i]) == ua[i] == v[i];
      } else {
        assert u[i] == ToUpper(b[i - |a|]) == ub[i - |a|] == v[i];
      }
    }
    assert u == v;
  }



  predicate AllSpace(s: string) { forall k :: 0 <= k < |s| ==> IsSpace(s[k]) }

  predicate NoSpace(s: string) { forall k :: 0 <= k < |s| ==> !IsSpace(s[k]) }

  /** The end of the longest run of characters satisfying `p` that starts at `i`. */
  function SkipWhile(s: string, i: nat, p: char -> bool): (j: nat)
    requires i <= |s|
    ensures i <= j <= |s|
    ensures forall k :: i <= k < j ==> p(s[k])
    ensures j == |s| || !p(s[j])
    decreases |s| - i
  {
    if i == |s| || !p(s[i]) then i else SkipWhile(s, i + 1, p)
  }

  /** Any index that bounds a run of `p` from `i` and stops at a non-`p`
      character (or the end) is the one `SkipWhile` finds. */
  lemma SkipWhileUnique(s: string, i: nat, j: nat, p: char -> bool)
    requires i <= j <= |s|
    requires forall k :: i <= k < j ==> p(s[k])
    requires j == |s| || !p(s[j])
    ensures SkipWhile(s, i, p) == j
  {
  }

  function TrimStart(s: string): (r: string)
    ensures |r| <= |s| && r == s[|s| - |r|..]
    ensures AllSpace(s[..|s| - |r|])
    ensures r == [] || !IsSpace(r[0])
  {
    s[SkipWhile(s, 0, IsSpace)..]
  }

  function TrimEnd(s: string): (r: string)
    ensures |r| <= |s| && r == s[..|r|]
    ensures AllSpace(s[|r|..])
    ensures r == [] || !IsSpace(r[|r| - 1])
  {
    if s != [] && IsSpace(s[|s| - 1]) then TrimEnd(s[..|s| - 1]) else s
  }

  /** `String.prototype.trim`. */
  function Trim(s: string): (r: string)
    ensures |r| <= |s|
    ensures r == [] || (!IsSpace(r[0]) && !IsSpace(r[|r| - 1]))
  {
    TrimEnd(TrimStart(s))
  }

  /** Trimming removes leading and trailing whitespace and nothing else: the
      result is a slice of the input with only whitespace around it. */
  lemma TrimRemovesOnlySpace(s: string)
    ensures var r := Trim(s);
            exists i :: 0 <= i <= |s| - |r| && r == s[i..i + |r|]
                        && AllSpace(s[..i]) && AllSpace(s[i + |r|..])
  {
    var t := TrimStart(s);
    var r := TrimEnd(t);
    var i := |s| - |t|;
    assert r == s[i..i + |r|];
    assert s[i + |r|..] == t[|r|..];
  }

  /** A string that neither starts nor ends with whitespace is its own trim. */
  lemma TrimTrimmed(s: string)
    requires s == [] || (!IsSpace(s[0]) && !IsSpace(s[|s| - 1]))
    ensures Trim(s) == s
  {
  }

  /** Leading whitespace does not change the trim. */
  lemma TrimSkipsLeadingSpace(s: string, i: nat)
    requires i <= |s| && AllSpace(s[..i])
    ensures Trim(s[i..]) == Trim(s)
  {
    forall k | 0 <= k < i ensures IsSpace(s[k]) {
      assert s[..i][k] == s[k];
    }
    var j := SkipWhile(s, 0, IsSpace);
    assert SkipWhile(s[i..], 0, IsSpace) == j - i by {
      SkipWhileUnique(s[i..], 0, j - i, IsSpace);
    }
    assert TrimStart(s[i..]) == TrimStart(s);
  }

  /** `Array.prototype.join(sep)`. */
  function JoinWith(parts: seq<string>, sep: string): string
  {
    if parts == [] then ""
    else if |parts| == 1 then parts[0]
    else parts[0] + sep + JoinWith(parts[1..], sep)
  }

  lemma JoinCons(x: string, rest: seq<string>, sep: string)
    requires rest != []
    ensures JoinWith([x] + rest, sep) == x + sep + JoinWith(rest, sep)
  {
    assert ([x] + rest)[1..] == rest;
  }

  /** Replaces every maximal run of whitespace by one space. */
  function CollapseSpaces(s: string): (r: string)
    ensures |r| <= |s|
    decreases |s|
  {
    if s == [] then []
    else if IsSpace(s[0]) then [' '] + CollapseSpaces(s[SkipWhile(s, 0, IsSpace)..])
    else [s[0]] + CollapseSpaces(s[1..])
  }

  /** `s.split(/\s+/)`: the pieces between the maximal whitespace runs; an
      empty piece stands for leading or trailing whitespace. */
  function SplitOnSpace(s: string): (r: seq<string>)
    ensures |r| >= 1
    ensures forall k :: 0 <= k < |r| ==> NoSpace(r[k])
    decreases |s|
  {
    var p := SkipWhile(s, 0, IsNotSpace);
    if p == |s| then [s]
    else [s[..p]] + SplitOnSpace(s[SkipWhile(s, p, IsSpace)..])
  }

  lemma {:induction false} CollapseNoSpacePrefix(a: string, b: string)
    requires NoSpace(a)
    ensures CollapseSpaces(a + b) == a + CollapseSpaces(b)
    decreases |a|
  {
    if a != [] {
      var ab := a + b;
      assert ab[0] == a[0] && !IsSpace(a[0]);
      assert ab[1..] == a[1..] + b;
      assert NoSpace(a[1..]) by {
        forall k | 0 <= k < |a| - 1 ensures !IsSpace(a[1..][k]) {
          assert a[1..][k] == a[k + 1];
        }
      }
      CollapseNoSpacePrefix(a[1..], b);
      assert CollapseSpaces(ab) == [a[0]] + (a[1..] + CollapseSpaces(b));
      assert a == [a[0]] + a[1..];
    } else {
      assert a + b == b;
    }
  }

  lemma CollapseSpacePrefix(s: string, q: nat)
    requires 0 < q <= |s| && AllSpace(s[..q]) && (q == |s| || !IsSpace(s[q]))
    ensures CollapseSpaces(s) == [' '] + CollapseSpaces(s[q..])
  {
    assert s[..q][0] == s[0];
    SkipWhileUnique(s, 0, q, IsSpace);
  }

  /** Collapsing a string whose first whitespace run is `s[p..q]`. */
  lemma CollapseAtFirstSpace(s: string, p: nat, q: nat)
    requires p < q <= |s| && NoSpace(s[..p]) && AllSpace(s[p..q]) && (q == |s| || !IsSpace(s[q]))
    ensures CollapseSpaces(s) == s[..p] + " " + CollapseSpaces(s[q..])
  {
    var head, tail := s[..p], s[p..];
    var rest := CollapseSpaces(s[q..]);
    CollapseFromRun(s, p, q);
    assert s == head + tail;
    CollapseNoSpacePrefix(head, tail);
    assert CollapseSpaces(s) == head + ([' '] + rest);
    assert head + ([' '] + rest) == head + " " + rest;
  }

  lemma CollapseFromRun(s: string, p: nat, q: nat)
    requires p < q <= |s| && AllSpace(s[p..q]) && (q == |s| || !IsSpace(s[q]))
    ensures CollapseSpaces(s[p..]) == [' '] + CollapseSpaces(s[q..])
  {
    var tail := s[p..];
    assert tail[q - p..] == s[q..];
    assert tail[..q - p] == s[p..q];
    CollapseSpacePrefix(tail, q - p);
  }

  /** Joining the pieces of `split(/\s+/)` with single spaces collapses every
      whitespace run of the input to one space and keeps everything else. */
  lemma {:induction false} SplitJoinCollapses(s: string)
    ensures JoinWith(SplitOnSpace(s), " ") == CollapseSpaces(s)
    decreases |s|
  {
    var p := SkipWhile(s, 0, IsNotSpace);
    assert NoSpace(s[..p]);
    if p == |s| {
      assert s == s[..p] + [];
      CollapseNoSpacePrefix(s[..p], []);
    } else {
      var q := SkipWhile(s, p, IsSpace);
      var pieces := SplitOnSpace(s[q..]);
      assert SplitOnSpace(s) == [s[..p]] + pieces;
      JoinCons(s[..p], pieces, " ");
      SplitJoinCollapses(s[q..]);
      CollapseAtFirstSpace(s, p, q);
    }
  }

  /** On a string without leading or trailing whitespace, every piece of
      `split(/\s+/)` is non-empty; only the empty string splits into `[""]`. */
  lemma {:induction false} SplitTrimmedPiecesNonEmpty(s: string)
    requires s == [] || (!IsSpace(s[0]) && !IsSpace(s[|s| - 1]))
    ensures s == [] ==> SplitOnSpace(s) == [""]
    ensures s != [] ==> forall k :: 0 <= k < |SplitOnSpace(s)| ==> SplitOnSpace(s)[k] != []
    decreases |s|
  {
    if s != [] {
      var p := SkipWhile(s, 0, IsNotSpace);
      if p < |s| {
        var q := SkipWhile(s, p, IsSpace);
        assert q < |s|;
        SplitTrimmedPiecesNonEmpty(s[q..]);
      }
    }
  }
}
