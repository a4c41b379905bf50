/** Course metadata inferred from a course folder's name (`inferCourseMetadata`).

    The folder name is trimmed and matched against the heading pattern
    `^(?<code>[A-Za-z]{2,}\s?\d{2,})\s*[SEP]\s*(?<title>.+)$`; when it does not
    match, the first two whitespace-separated words are the code. The pattern
    is matched here by a scanner over indices, and `HeadingSplit` states the
    pattern itself, so that the two can be compared. */
module CourseInference {
  import opened Wrappers
  import opened Text

  datatype CourseInfo = CourseInfo(code: string, name: string, department: string)

  /** The separator class of the heading pattern as the source file spells it.
      The en-dash meant there is stored mis-encoded, so the class holds the
      hyphen and the three characters U+00E2, U+20AC and U+201C; the en-dash
      U+2013 itself is not a separator. */
  predicate IsSeparator(c: char) {
    c == '-' || c == '\U{00E2}' || c == '\U{20AC}' || c == '\U{201C}'
  }

  predicate IsNotLineTerminator(c: char) { !IsLineTerminator(c) }

  /** `name` matches the heading pattern with `name[..i]` the letters,
      `name[i..j]` the optional whitespace, `name[j..k]` the digits (so the
      code group is `name[..k]`), the separator at `m`, and the title group
      `name[n..]`. */
  ghost predicate HeadingSplit(name: string, i: nat, j: nat, k: nat, m: nat, n: nat) {
    && 2 <= i <= j <= i + 1 && j + 2 <= k <= m < n < |name|
    && (forall p :: 0 <= p < i ==> IsAsciiLetter(name[p]))
    && (forall p :: i <= p < j ==> IsSpace(name[p]))
    && (forall p :: j <= p < k ==> IsDigit(name[p]))
    && (forall p :: k <= p < m ==> IsSpace(name[p]))
    && IsSeparator(name[m])
    && (forall p :: m < p < n ==> IsSpace(name[p]))
    && (forall p :: n <= p < |name| ==> !IsLineTerminator(name[p]))
  }

  /** The boundaries of the heading match, each quantifier taking as much as
      it can, or None when the pattern does not match. */
  function HeadingIndices(name: string): (r: Option<(nat, nat, nat, nat, nat)>)
    ensures r.Some? ==> HeadingSplit(name, r.value.0, r.value.1, r.value.2, r.value.3, r.value.4)
  {
    var i := SkipWhile(name, 0, IsAsciiLetter);
    var j := if i < |name| && IsSpace(name[i]) then i + 1 else i;
    var k := SkipWhile(name, j, IsDigit);
    var m := SkipWhile(name, k, IsSpace);
    if i < 2 || k < j + 2 || m == |name| || !IsSeparator(name[m]) then None
    else
      var n := SkipWhile(name, m + 1, IsSpace);
      if n == |name| || SkipWhile(name, n, IsNotLineTerminator) < |name| then None
      else Some((i, j, k, m, n))
  }

  /** Every way of matching the pattern against a name that does not end in
      whitespace has the scanner's letters, digits and separator; its title
      group differs from the scanner's only by leading whitespace. */
  lemma HeadingIndicesComplete(name: string, i: nat, j: nat, k: nat, m: nat, n: nat)
    requires HeadingSplit(name, i, j, k, m, n)
    requires !IsSpace(name[|name| - 1])
    ensures HeadingIndices(name).Some?
    ensures var r := HeadingIndices(name).value;
            r.0 == i && r.1 == j && r.2 == k && r.3 == m
            && n <= r.4 < |name| && AllSpace(name[n..r.4])
  {
    SkipWhileUnique(name, 0, i, IsAsciiLetter);
    SkipWhileUnique(name, j, k, IsDigit);
    SkipWhileUnique(name, k, m, IsSpace);
    var n' := SkipWhile(name, m + 1, IsSpace);
    assert n <= n';
    assert n' < |name|;
    assert SkipWhile(name, n', IsNotLineTerminator) == |name|;
  }

  /** `str.replace(/\s+/, " ")`: the first whitespace run becomes one space. */
  function ReplaceFirstSpaceRun(s: string): string {
    var p := SkipWhile(s, 0, IsNotSpace);
    if p == |s| then s else s[..p] + " " + s[SkipWhile(s, p, IsSpace)..]
  }

  function Min(a: nat, b: nat): nat { if a <= b then a else b }

  /** `inferCourseMetadata(folderName, departmentName)`. */
  function InferCourseMetadata(folderName: string, departmentName: string): (r: CourseInfo)
    ensures r.department == departmentName
  {
    var name := Trim(folderName);
    match HeadingIndices(name)
    case Some((i, j, k, m, n)) =>
      CourseInfo(Upper(ReplaceFirstSpaceRun(name[..k])), Trim(name[n..]), departmentName)
    case None => SplitCourse(name, departmentName)
  }

  /** The fallback when the heading pattern does not match: `split(/\s+/)`,
      the first two pieces as the code, the rest (or, if that is empty, the
      whole name) as the name. */
  function SplitCourse(name: string, departmentName: string): CourseInfo {
    var split := SplitOnSpace(name);
    var code := Upper(JoinWith(split[..Min(2, |split|)], " "));
    var title := JoinWith(split[Min(2, |split|)..], " ");
    CourseInfo(code, if title == "" then name else title, departmentName)
  }

  /** The course code of a heading: its letters and digits upper-cased, with
      the one optional whitespace character between them made a space. */
  function HeadingCode(name: string, i: nat, j: nat, k: nat): string
    requires i <= j <= k <= |name|
  {
    Upper(name[..i] + (if j > i then " " else "") + name[j..k])
  }

  lemma ReplaceInHeadingCode(name: string, i: nat, j: nat, k: nat, m: nat, n: nat)
    requires HeadingSplit(name, i, j, k, m, n)
    ensures ReplaceFirstSpaceRun(name[..k]) == name[..i] + (if j > i then " " else "") + name[j..k]
  {
    var code := name[..k];
    forall p | 0 <= p < i ensures !IsSpace(code[p]) {
      assert IsAsciiLetter(name[p]);
    }
    forall p | j <= p < k ensures !IsSpace(code[p]) {
      assert IsDigit(name[p]);
    }
    if j > i {
      SkipWhileUnique(code, 0, i, IsNotSpace);
      SkipWhileUnique(code, i, j, IsSpace);
      assert code[..i] == name[..i] && code[j..] == name[j..k];
    } else {
      SkipWhileUnique(code, 0, k, IsNotSpace);
      assert code == name[..i] + name[j..k];
    }
  }

  /** The heading branch: when the trimmed folder name matches the pattern
      (in any way), the code is the letters and digits upper-cased with at
      most one space between them, the name is the trimmed, non-empty title,
      and the department is passed through. */
  lemma SeparatorBranch(folderName: string, departmentName: string,
                        i: nat, j: nat, k: nat, m: nat, n: nat)
    requires HeadingSplit(Trim(folderName), i, j, k, m, n)
    ensures var name := Trim(folderName);
            var r := InferCourseMetadata(folderName, departmentName);
            && r == CourseInfo(HeadingCode(name, i, j, k), Trim(name[n..]), departmentName)
            && r.name != []
  {
    var name := Trim(folderName);
    HeadingIndicesComplete(name, i, j, k, m, n);
    var n' := HeadingIndices(name).value.4;
    assert HeadingIndices(name) == Some((i, j, k, m, n'));
    var r := InferCourseMetadata(folderName, departmentName);
    assert r == CourseInfo(Upper(ReplaceFirstSpaceRun(name[..k])), Trim(name[n'..]), departmentName);
    ReplaceInHeadingCode(name, i, j, k, m, n);
    HeadingTitle(name, n, n');
  }

  lemma HeadingTitle(name: string, n: nat, n': nat)
    requires n <= n' < |name| && AllSpace(name[n..n'])
    requires !IsSpace(name[n']) && !IsSpace(name[|name| - 1])
    ensures Trim(name[n..]) == name[n'..] == Trim(name[n'..]) != []
  {
    var t, u := name[n..], name[n'..];
    assert t[..n' - n] == name[n..n'];
    TrimSkipsLeadingSpace(t, n' - n);
    assert t[n' - n..] == u;
    assert Trim(t) == Trim(u);
    assert u[0] == name[n'] && u[|u| - 1] == name[|name| - 1];
    TrimTrimmed(u);
    assert Trim(u) == u;
  }

  /** Without a heading match, the inference is the split fallback. */
  lemma NoHeadingFallsBack(folderName: string, departmentName: string)
    requires forall i, j, k, m, n :: !HeadingSplit(Trim(folderName), i, j, k, m, n)
    ensures InferCourseMetadata(folderName, departmentName) == SplitCourse(Trim(folderName), departmentName)
  {
    assert HeadingIndices(Trim(folderName)).None?;
  }

  /** The fallback branch: when the trimmed folder name does not match the
      heading pattern, the code is the first two words upper-cased and joined
      by one space, and the name is the remaining words joined by single
      spaces, or the whole trimmed name when there are fewer than three. */
  lemma FallbackBranch(folderName: string, departmentName: string)
    requires forall i, j, k, m, n :: !HeadingSplit(Trim(folderName), i, j, k, m, n)
    ensures var words := SplitOnSpace(Trim(folderName));
            var r := InferCourseMetadata(folderName, departmentName);
            && r.code == Upper(JoinWith(words[..Min(2, |words|)], " "))
            && r.name == (if |words| > 2 then JoinWith(words[2..], " ") else Trim(folderName))
  {
    var name := Trim(folderName);
    var words := SplitOnSpace(name);
    NoHeadingFallsBack(folderName, departmentName);
    SplitTrimmedPiecesNonEmpty(name);
    if |words| > 2 {
      assert words[2..][0] == words[2] && words[2] != [];
      JoinNonEmpty(words[2..]);
    }
  }

  lemma JoinNonEmpty(parts: seq<string>)
    requires parts != [] && parts[0] != []
    ensures JoinWith(parts, " ") != []
  {
  }

  lemma {:induction false} JoinSplitAt(parts: seq<string>, sep: string, k: nat)
    requires 0 < k < |parts|
    ensures JoinWith(parts, sep) == JoinWith(parts[..k], sep) + sep + JoinWith(parts[k..], sep)
    decreases k
  {
    if k > 1 {
      JoinSplitAt(parts[1..], sep, k - 1);
      assert parts[1..][..k - 1] == parts[..k][1..];
      assert parts[1..][k - 1..] == parts[k..];
    }
  }

  /** What the fallback keeps: with three words or more, code and name
      together are the trimmed folder name with every whitespace run made a
      single space (the code upper-cased); with fewer, the code is that whole
      collapsed name. */
  lemma FallbackReassembles(folderName: string, departmentName: string)
    requires forall i, j, k, m, n :: !HeadingSplit(Trim(folderName), i, j, k, m, n)
    ensures var name := Trim(folderName);
            var r := InferCourseMetadata(folderName, departmentName);
            if |SplitOnSpace(name)| > 2 then r.code + " " + Upper(r.name) == Upper(CollapseSpaces(name))
            else r.code == Upper(CollapseSpaces(name)) && r.name == name
  {
    var name := Trim(folderName);
    FallbackBranch(folderName, departmentName);
    SplitJoinCollapses(name);
    var words := SplitOnSpace(name);
    if |words| > 2 {
      WordsReassemble(words);
    } else {
      assert words[..Min(2, |words|)] == words;
    }
  }

  lemma WordsReassemble(words: seq<string>)
    requires |words| > 2
    ensures Upper(JoinWith(words[..2], " ")) + " " + Upper(JoinWith(words[2..], " "))
            == Upper(JoinWith(words, " "))
  {
    var head := JoinWith(words[..2], " ");
    var tail := JoinWith(words[2..], " ");
    JoinSplitAt(words, " ", 2);
    assert JoinWith(words, " ") == (head + " ") + tail;
    UpperConcat(head + " ", tail);
    UpperConcat(head, " ");
    assert Upper(" ") == " ";
  }

  /** A blank folder name gives an empty code and an empty name. */
  lemma BlankFolderName(folderName: string, departmentName: string)
    requires Trim(folderName) == []
    ensures InferCourseMetadata(folderName, departmentName) == CourseInfo("", "", departmentName)
  {
    assert SplitOnSpace("") == [""];
  }
}
