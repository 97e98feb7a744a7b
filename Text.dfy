/**
 * The Python string operations the two scripts use, on `seq<char>`:
 * `in`, `startswith`, `endswith`, `split(sep)`, `split()`, `splitlines()`
 * and `strip()`.  Lines end only at '\n', and whitespace is the ASCII set
 * ' ', '\t', '\n', '\v', '\f', '\r'.
 */
module Text {
  import opened Wrappers

  /** The whitespace that `strip()` removes and `split()` splits on. */
  predicate IsSpace(c: char) {
    c == ' ' || '\t' <= c <= '\r'
  }

  predicate AllSpace(s: string) {
    forall i :: 0 <= i < |s| ==> IsSpace(s[i])
  }

  predicate NoSpace(s: string) {
    forall i :: 0 <= i < |s| ==> !IsSpace(s[i])
  }

  function Last<T>(s: seq<T>): T
    requires |s| > 0
  {
    s[|s| - 1]
  }

  /** No element occurs twice. */
  predicate Distinct<T(==)>(s: seq<T>) {
    forall i, j :: 0 <= i < j < |s| ==> s[i] != s[j]
  }

  /** `s.startswith(prefix)` */
  predicate StartsWith(s: string, prefix: string) {
    |prefix| <= |s| && s[..|prefix|] == prefix
  }

  /** `s.endswith(suffix)` */
  predicate EndsWith(s: string, suffix: string) {
    |suffix| <= |s| && s[|s| - |suffix|..] == suffix
  }

  predicate OccursAt(s: string, sub: string, i: nat) {
    i + |sub| <= |s| && s[i..i + |sub|] == sub
  }

  /** `sub in s` */
  predicate Contains(s: string, sub: string) {
    exists i :: 0 <= i <= |s| && OccursAt(s, sub, i)
  }

  lemma ContainsChar(s: string, c: char)
    ensures Contains(s, [c]) <==> c in s
  {
    if c in s {
      var i :| 0 <= i < |s| && s[i] == c;
      assert OccursAt(s, [c], i);
    }
    if Contains(s, [c]) {
      var i :| 0 <= i <= |s| && OccursAt(s, [c], i);
      assert s[i] == s[i..i + 1][0];
    }
  }

  /** A text without the first character of `sub` does not contain `sub`. */
  lemma AbsentFirstChar(s: string, sub: string)
    requires sub != [] && sub[0] !in s
    ensures !Contains(s, sub)
  {
    forall i | 0 <= i <= |s|
      ensures !OccursAt(s, sub, i)
    {
      if i + |sub| <= |s| {
        assert s[i..i + |sub|][0] == s[i];
      }
    }
  }

  /** The first index whose element satisfies `p`, as in a `for` loop that returns on the first hit. */
  function FirstIndex<T>(s: seq<T>, p: T -> bool): (r: Option<nat>)
    ensures r.Some? ==> r.value < |s| && p(s[r.value]) && forall j :: 0 <= j < r.value ==> !p(s[j])
    ensures r.None? <==> forall j :: 0 <= j < |s| ==> !p(s[j])
    decreases |s|
  {
    if s == [] then None
    else if p(s[0]) then Some(0)
    else
      match FirstIndex(s[1..], p)
      case None => None
      case Some(j) => Some(j + 1)
  }

  lemma OccursAtTail(s: string, sub: string)
    requires s != []
    ensures forall j :: 1 <= j ==> (OccursAt(s, sub, j) <==> OccursAt(s[1..], sub, j - 1))
  {
    forall j | 1 <= j
      ensures OccursAt(s, sub, j) <==> OccursAt(s[1..], sub, j - 1)
    {
      if j + |sub| <= |s| {
        assert s[j..j + |sub|] == s[1..][j - 1..j - 1 + |sub|];
      }
    }
  }

  /** The leftmost occurrence of `sub` in `s` (`s.find(sub)`, with None for -1); see `IndexOfLeftmost`. */
  function IndexOf(s: string, sub: string): (r: Option<nat>)
    ensures r.Some? ==> r.value + |sub| <= |s|
    decreases |s|
  {
    if |s| < |sub| then None
    else if s[..|sub|] == sub then Some(0)
    else
      match IndexOf(s[1..], sub)
      case None => None
      case Some(j) => Some(j + 1)
  }

  /** `IndexOf` finds the leftmost occurrence, and finds nothing exactly when `sub` does not occur. */
  lemma {:induction false} IndexOfLeftmost(s: string, sub: string)
    ensures IndexOf(s, sub).Some? ==>
              OccursAt(s, sub, IndexOf(s, sub).value) && forall j :: 0 <= j < IndexOf(s, sub).value ==> !OccursAt(s, sub, j)
    ensures IndexOf(s, sub).None? <==> !Contains(s, sub)
    decreases |s|
  {
    if |s| < |sub| {
      assert forall j :: 0 <= j <= |s| ==> !OccursAt(s, sub, j);
    } else if s[..|sub|] == sub {
      assert OccursAt(s, sub, 0);
    } else {
      IndexOfLeftmost(s[1..], sub);
      OccursAtTail(s, sub);
      assert !OccursAt(s, sub, 0);
      if Contains(s, sub) {
        var i :| 0 <= i <= |s| && OccursAt(s, sub, i);
        assert OccursAt(s[1..], sub, i - 1);
      }
      if Contains(s[1..], sub) {
        var i :| 0 <= i <= |s[1..]| && OccursAt(s[1..], sub, i);
        assert OccursAt(s, sub, i + 1);
      }
    }
  }

  lemma NoneBefore(s: string, sep: string, i: nat)
    requires sep != [] && i <= |s|
    requires forall j :: 0 <= j < i ==> !OccursAt(s, sep, j)
    ensures !Contains(s[..i], sep)
  {
    forall j | 0 <= j <= i && OccursAt(s[..i], sep, j)
      ensures false
    {
      assert s[..i][j..j + |sep|] == s[j..j + |sep|];
      assert OccursAt(s, sep, j);
    }
  }

  /** `s.split(sep)` for a non-empty separator: the pieces between leftmost non-overlapping occurrences. */
  function Split(s: string, sep: string): (parts: seq<string>)
    requires sep != []
    ensures |parts| >= 1
    decreases |s|
  {
    var r := IndexOf(s, sep);
    if r.None? then [s]
    else [s[..r.value]] + Split(s[r.value + |sep|..], sep)
  }

  /** No piece of `s.split(sep)` contains `sep`. */
  lemma {:induction false} SplitPiecesFree(s: string, sep: string)
    requires sep != []
    ensures forall k :: 0 <= k < |Split(s, sep)| ==> !Contains(Split(s, sep)[k], sep)
    decreases |s|
  {
    var r := IndexOf(s, sep);
    if r.None? {
      IndexOfLeftmost(s, sep);
    } else {
      var i := r.value;
      SplitStep(s, sep, i);
      SplitPiecesFree(s[i + |sep|..], sep);
    }
  }

  /** A text without the separator splits into itself alone. */
  lemma SplitAbsent(s: string, sep: string)
    requires sep != [] && !Contains(s, sep)
    ensures Split(s, sep) == [s]
  {
    IndexOfLeftmost(s, sep);
  }

  /** `sep.join(parts)` */
  function Join(parts: seq<string>, sep: string): string
    decreases |parts|
  {
    if parts == [] then []
    else if |parts| == 1 then parts[0]
    else parts[0] + sep + Join(parts[1..], sep)
  }

  /** Where the first occurrence of `sep` is, `s.split(sep)` peels off the text before it. */
  lemma SplitStep(s: string, sep: string, i: nat)
    requires sep != [] && IndexOf(s, sep) == Some(i)
    ensures i + |sep| <= |s|
    ensures s == s[..i] + sep + s[i + |sep|..]
    ensures !Contains(s[..i], sep)
    ensures Split(s, sep) == [s[..i]] + Split(s[i + |sep|..], sep)
  {
    IndexOfLeftmost(s, sep);
    NoneBefore(s, sep, i);
  }

  /** Joining a piece in front of one or more pieces puts the separator between. */
  lemma JoinFront(a: string, ps: seq<string>, sep: string)
    requires |ps| >= 1
    ensures Join([a] + ps, sep) == a + sep + Join(ps, sep)
  {
    assert ([a] + ps)[1..] == ps;
  }

  /** Splitting and joining again with the same separator gives back the text. */
  lemma {:induction false} SplitJoin(s: string, sep: string)
    requires sep != []
    ensures Join(Split(s, sep), sep) == s
    decreases |s|
  {
    var r := IndexOf(s, sep);
    if r.Some? {
      var i := r.value;
      var rest := s[i + |sep|..];
      SplitStep(s, sep, i);
      SplitJoin(rest, sep);
      JoinFront(s[..i], Split(rest, sep), sep);
    }
  }

  /** Splitting where the separator's first character is absent before its first occurrence. */
  lemma SplitAtFirst(pre: string, sep: string, post: string)
    requires sep != [] && sep[0] !in pre
    ensures Split(pre + sep + post, sep) == [pre] + Split(post, sep)
  {
    var s := pre + sep + post;
    assert OccursAt(s, sep, |pre|) by {
      assert s[|pre|..|pre| + |sep|] == sep;
    }
    forall j | 0 <= j < |pre|
      ensures !OccursAt(s, sep, j)
    {
      if j + |sep| <= |s| {
        assert s[j..j + |sep|][0] == pre[j];
      }
    }
    IndexOfLeftmost(s, sep);
    var i := IndexOf(s, sep).value;
    assert i == |pre|;
    assert s[..i] == pre;
    assert s[i + |sep|..] == post;
  }

  /** Joining pieces free of a one-character separator and splitting again gives back the pieces. */
  lemma {:induction false} JoinSplit(parts: seq<string>, c: char)
    requires |parts| >= 1
    requires forall k :: 0 <= k < |parts| ==> c !in parts[k]
    ensures Split(Join(parts, [c]), [c]) == parts
    decreases |parts|
  {
    if |parts| == 1 {
      ContainsChar(parts[0], c);
      SplitAbsent(parts[0], [c]);
    } else {
      JoinCons(parts, [c]);
      SplitAtFirst(parts[0], [c], Join(parts[1..], [c]));
      JoinSplit(parts[1..], c);
    }
  }

  /** Splitting on one character gives one more piece than there are occurrences of it. */
  lemma {:induction false} SplitCount(s: string, c: char)
    ensures |Split(s, [c])| == multiset(s)[c] + 1
    decreases |s|
  {
    match IndexOf(s, [c])
    case None =>
      IndexOfLeftmost(s, [c]);
      ContainsChar(s, c);
    case Some(i) =>
      var rest := s[i + 1..];
      SplitStep(s, [c], i);
      SplitCount(rest, c);
      ContainsChar(s[..i], c);
      assert multiset(s) == multiset(s[..i]) + multiset([c]) + multiset(rest);
  }

  /**
   * The last piece of `s.split(sep)` (`s.split(sep)[-1]`) is a suffix of `s`
   * free of `sep`; it is `s` itself when `sep` does not occur, and otherwise
   * it follows an occurrence of `sep`.
   */
  lemma {:induction false} SplitLast(s: string, sep: string)
    requires sep != []
    ensures EndsWith(s, Last(Split(s, sep)))
    ensures !Contains(Last(Split(s, sep)), sep)
    ensures !Contains(s, sep) ==> Last(Split(s, sep)) == s
    ensures Contains(s, sep) ==> EndsWith(s, sep + Last(Split(s, sep)))
    decreases |s|
  {
    IndexOfLeftmost(s, sep);
    var r := IndexOf(s, sep);
    if r.Some? {
      var i := r.value;
      var rest := s[i + |sep|..];
      SplitStep(s, sep, i);
      assert Last(Split(s, sep)) == Last(Split(rest, sep));
      SplitLast(rest, sep);
      EndsAfterSeparator(s[..i], sep, rest, Last(Split(rest, sep)));
    }
  }

  lemma EndsAfterSeparator(pre: string, sep: string, rest: string, tail: string)
    requires EndsWith(rest, tail)
    requires tail == rest || EndsWith(rest, sep + tail)
    ensures EndsWith(pre + sep + rest, tail) && EndsWith(pre + sep + rest, sep + tail)
  {
    EndsWithAppend(pre + sep, rest, tail);
    if tail == rest {
      assert EndsWith(pre + sep, sep);
      EndsWithConcat(pre + sep, rest, sep);
    } else {
      EndsWithAppend(pre + sep, rest, sep + tail);
    }
  }

  lemma EndsWithConcat(a: string, b: string, x: string)
    requires EndsWith(a, x)
    ensures EndsWith(a + b, x + b)
  {
    assert (a + b)[|a + b| - |x + b|..] == a[|a| - |x|..] + b;
  }

  lemma EndsWithAppend(a: string, b: string, t: string)
    requires EndsWith(b, t)
    ensures EndsWith(a + b, t)
  {
    assert (a + b)[|a + b| - |t|..] == b[|b| - |t|..];
  }

  /** A join of two or more pieces starts with the first piece and the separator. */
  lemma JoinCons(parts: seq<string>, sep: string)
    requires |parts| >= 2
    ensures Join(parts, sep) == parts[0] + sep + Join(parts[1..], sep)
  {
  }

  /** A join of three or more pieces starts with the first two pieces, each followed by the separator. */
  lemma JoinTwoFirst(parts: seq<string>, sep: string)
    requires |parts| >= 3
    ensures Join(parts, sep) == parts[0] + sep + parts[1] + sep + Join(parts[2..], sep)
  {
    var tail := Join(parts[2..], sep);
    assert parts[1..][1..] == parts[2..];
    JoinCons(parts[1..], sep);
    JoinCons(parts, sep);
    assert parts[0] + sep + (parts[1] + sep + tail) == parts[0] + sep + parts[1] + sep + tail;
  }

  /** A join of three or more pieces: the first three pieces, then nothing or a separator and the rest. */
  lemma JoinThirdPiece(parts: seq<string>, sep: string) returns (rest: string)
    requires |parts| >= 3
    ensures Join(parts, sep) == parts[0] + sep + parts[1] + sep + parts[2] + rest
    ensures rest == [] || (|parts| > 3 && rest == sep + Join(parts[3..], sep))
  {
    JoinTwoFirst(parts, sep);
    var tail := parts[2..];
    if |parts| == 3 {
      rest := [];
      assert tail == [parts[2]];
    } else {
      rest := sep + Join(parts[3..], sep);
      JoinCons(tail, sep);
      assert tail[1..] == parts[3..];
    }
    assert Join(tail, sep) == parts[2] + rest;
  }

  lemma JoinSnoc(parts: seq<string>, x: string, sep: string)
    requires parts != []
    ensures Join(parts + [x], sep) == Join(parts, sep) + sep + x
    decreases |parts|
  {
    if |parts| > 1 {
      assert (parts + [x])[1..] == parts[1..] + [x];
      JoinSnoc(parts[1..], x, sep);
    }
  }

  /** `s.splitlines()` with '\n' as the only line boundary: no empty last line after a final '\n'. */
  function Lines(s: string): (lines: seq<string>)
    ensures forall k :: 0 <= k < |lines| ==> '\n' !in lines[k]
    ensures lines == [] <==> s == []
  {
    if s == [] then []
    else
      var parts := Split(s, "\n");
      SplitJoin(s, "\n");
      SplitPiecesFree(s, "\n");
      forall k | 0 <= k < |parts| ensures '\n' !in parts[k] {
        ContainsChar(parts[k], '\n');
      }
      if Last(parts) == [] then parts[..|parts| - 1] else parts
  }

  /** Joining the lines with '\n' gives back the text, up to one final '\n'. */
  lemma LinesJoin(s: string)
    ensures Join(Lines(s), "\n") + (if EndsWith(s, "\n") then "\n" else "") == s
  {
    if s != [] {
      var parts := Split(s, "\n");
      SplitJoin(s, "\n");
      SplitLast(s, "\n");
      if Last(parts) == [] {
        assert parts == parts[..|parts| - 1] + [[]];
        JoinSnoc(parts[..|parts| - 1], [], "\n");
        assert EndsWith(s, "\n");
      } else {
        ContainsChar(Last(parts), '\n');
        assert s[|s| - 1] == Last(parts)[|Last(parts)| - 1];
      }
    }
  }

  function TrimStart(s: string): (r: string)
    ensures |r| <= |s| && EndsWith(s, r)
    ensures AllSpace(s[..|s| - |r|])
    ensures r == [] || !IsSpace(r[0])
    decreases |s|
  {
    if s != [] && IsSpace(s[0]) then
      var r := TrimStart(s[1..]);
      TrimStartStep(s, r);
      r
    else s
  }

  lemma TrimStartStep(s: string, r: string)
    requires s != [] && IsSpace(s[0])
    requires |r| <= |s| - 1 && EndsWith(s[1..], r) && AllSpace(s[1..][..|s| - 1 - |r|])
    ensures EndsWith(s, r) && AllSpace(s[..|s| - |r|])
  {
    var k := |s| - |r|;
    assert s[k..] == s[1..][k - 1..];
    assert s[..k] == [s[0]] + s[1..][..k - 1];
  }

  function TrimEnd(s: string): (r: string)
    ensures StartsWith(s, r) && AllSpace(s[|r|..])
    ensures r == [] || !IsSpace(r[|r| - 1])
    decreases |s|
  {
    if s != [] && IsSpace(s[|s| - 1]) then
      var r := TrimEnd(s[..|s| - 1]);
      TrimEndStep(s, r);
      r
    else s
  }

  lemma TrimEndStep(s: string, r: string)
    requires s != [] && IsSpace(s[|s| - 1])
    requires StartsWith(s[..|s| - 1], r) && AllSpace(s[..|s| - 1][|r|..])
    ensures StartsWith(s, r) && AllSpace(s[|r|..])
  {
    var t := s[..|s| - 1];
    assert s[..|r|] == t[..|r|];
    assert s[|r|..] == t[|r|..] + [s[|s| - 1]];
  }

  /**
   * `s.strip()`: the part of `s` between leading and trailing whitespace,
   * which neither starts nor ends with whitespace.
   */
  function Strip(s: string): (r: string)
    ensures r == [] || (!IsSpace(r[0]) && !IsSpace(r[|r| - 1]))
    ensures exists i :: 0 <= i <= |s| && OccursAt(s, r, i) && AllSpace(s[..i]) && AllSpace(s[i + |r|..])
  {
    var t := TrimStart(s);
    var r := TrimEnd(t);
    StripPlacement(s, t, r);
    r
  }

  lemma StripPlacement(s: string, t: string, r: string)
    requires |t| <= |s| && EndsWith(s, t)
    requires StartsWith(t, r) && AllSpace(t[|r|..])
    ensures OccursAt(s, r, |s| - |t|) && AllSpace(s[|s| - |t| + |r|..])
  {
    var i := |s| - |t|;
    assert s[i..i + |r|] == t[..|r|];
    assert s[i + |r|..] == t[|r|..];
  }

  /** Text that neither starts nor ends with whitespace is left alone by `strip()`. */
  lemma StripUnchanged(s: string)
    requires s == [] || (!IsSpace(s[0]) && !IsSpace(s[|s| - 1]))
    ensures Strip(s) == s
  {
  }

  /** `strip()` is idempotent. */
  lemma StripIdempotent(s: string)
    ensures Strip(Strip(s)) == Strip(s)
  {
    StripUnchanged(Strip(s));
  }

  /** `strip()` gives the empty string exactly for all-whitespace text. */
  lemma StripEmpty(s: string)
    ensures Strip(s) == [] <==> AllSpace(s)
  {
    var r := Strip(s);
    var i :| 0 <= i <= |s| && OccursAt(s, r, i) && AllSpace(s[..i]) && AllSpace(s[i + |r|..]);
    if r == [] {
      SpaceAround(s, i);
    } else {
      assert s[i] == r[0];
    }
  }

  lemma SpaceAround(s: string, i: nat)
    requires i <= |s| && AllSpace(s[..i]) && AllSpace(s[i..])
    ensures AllSpace(s)
  {
    forall k | 0 <= k < |s|
      ensures IsSpace(s[k])
    {
      if k < i {
        assert s[k] == s[..i][k];
      } else {
        assert s[k] == s[i..][k - i];
      }
    }
  }

  /** A final '\n' after text without surrounding whitespace is all that `strip()` removes. */
  lemma StripFinalNewline(line: string)
    requires line != [] && !IsSpace(line[0]) && !IsSpace(Last(line))
    ensures Strip(line + "\n") == line
  {
    assert TrimStart(line + "\n") == line + "\n";
    assert (line + "\n")[..|line|] == line;
  }

  /** Length of the run of non-whitespace characters at the start of `s`. */
  function TokenEnd(s: string): (n: nat)
    ensures n <= |s| && NoSpace(s[..n])
    ensures n < |s| ==> IsSpace(s[n])
    decreases |s|
  {
    if s == [] || IsSpace(s[0]) then 0 else 1 + TokenEnd(s[1..])
  }

  /** `s.split()` with no argument: the maximal runs of non-whitespace characters, in order. */
  function Words(s: string): (words: seq<string>)
    ensures forall k :: 0 <= k < |words| ==> words[k] != [] && NoSpace(words[k])
    ensures words == [] <==> AllSpace(s)
    decreases |s|
  {
    if s == [] then []
    else if IsSpace(s[0]) then Words(s[1..])
    else
      var n := TokenEnd(s);
      [s[..n]] + Words(s[n..])
  }

  /**
   * `s.split()[-1]` is a maximal whitespace-free run of `s` that only
   * whitespace follows: it starts at `i`, after a whitespace character or at
   * the start of `s`.
   */
  lemma {:induction false} LastWord(s: string) returns (i: nat)
    requires !AllSpace(s)
    ensures IsLastRun(s, Last(Words(s)), i)
    decreases |s|
  {
    if IsSpace(s[0]) {
      LeadingSpaceSkipped(s);
      var j := LastWord(s[1..]);
      i := LastRunAfter(s, 1, Last(Words(s[1..])), j);
    } else {
      var n := TokenEnd(s);
      FirstWordPeeled(s);
      if AllSpace(s[n..]) {
        i := 0;
      } else {
        var j := LastWord(s[n..]);
        LastWordNotFirst(s[n..], j);
        i := LastRunAfter(s, n, Last(Words(s[n..])), j);
      }
    }
  }

  /** `w` sits at `i` in `s`, after whitespace or at the start, with only whitespace after it. */
  predicate IsLastRun(s: string, w: string, i: nat) {
    OccursAt(s, w, i) && (i == 0 || IsSpace(s[i - 1])) && AllSpace(s[i + |w|..])
  }

  lemma LastWordNotFirst(t: string, j: nat)
    requires t != [] && IsSpace(t[0]) && !AllSpace(t) && IsLastRun(t, Last(Words(t)), j)
    ensures j > 0
  {
    var w := Last(Words(t));
    assert w != [] && NoSpace(w);
    assert w[0] == t[j];
  }

  lemma LeadingSpaceSkipped(s: string)
    requires !AllSpace(s) && IsSpace(s[0])
    ensures !AllSpace(s[1..]) && Words(s) == Words(s[1..])
  {
    var k :| 0 <= k < |s| && !IsSpace(s[k]);
    assert s[1..][k - 1] == s[k];
  }

  lemma FirstWordPeeled(s: string)
    requires s != [] && !IsSpace(s[0])
    ensures AllSpace(s[TokenEnd(s)..]) ==> Words(s) != [] && Last(Words(s)) == s[..TokenEnd(s)]
    ensures !AllSpace(s[TokenEnd(s)..]) ==> Last(Words(s)) == Last(Words(s[TokenEnd(s)..]))
  {
    var n := TokenEnd(s);
    assert Words(s) == [s[..n]] + Words(s[n..]);
  }

  /** A run placed as the last word of `s[n..]` keeps that place, shifted by `n`, in `s`. */
  lemma LastRunAfter(s: string, n: nat, w: string, j: nat) returns (i: nat)
    requires n <= |s| && IsLastRun(s[n..], w, j)
    requires j == 0 ==> n > 0 && IsSpace(s[n - 1])
    ensures i == n + j && IsLastRun(s, w, i)
  {
    i := n + j;
    assert s[i..i + |w|] == s[n..][j..j + |w|];
    assert s[i + |w|..] == s[n..][j + |w|..];
    if j > 0 {
      assert s[i - 1] == s[n..][j - 1];
    }
  }

  /** Text with a non-whitespace character has at least one word. */
  lemma WordsOfMarked(s: string, i: nat)
    requires i < |s| && !IsSpace(s[i])
    ensures Words(s) != []
  {
  }

  /** The run of non-whitespace at the start of `s` stops at the first whitespace character. */
  lemma {:induction false} TokenEndBefore(s: string, k: nat)
    requires k < |s| && IsSpace(s[k])
    ensures TokenEnd(s) <= k
    decreases k
  {
    if !IsSpace(s[0]) {
      TokenEndBefore(s[1..], k - 1);
    }
  }

  /** A whitespace-free text runs to its end. */
  lemma {:induction false} TokenEndAll(s: string)
    requires NoSpace(s)
    ensures TokenEnd(s) == |s|
    decreases |s|
  {
    if s != [] {
      assert !IsSpace(s[0]);
      TokenEndAll(s[1..]);
    }
  }

  /** The last word of a text ending in a space and a whitespace-free token is that token. */
  lemma {:induction false} LastWordAfterSpace(pre: string, tok: string)
    requires tok != [] && NoSpace(tok)
    ensures Words(pre + " " + tok) != [] && Last(Words(pre + " " + tok)) == tok
    decreases |pre|
  {
    var s := pre + " " + tok;
    if pre == [] {
      assert s[1..] == tok;
      TokenEndAll(tok);
      assert Words(tok) == [tok[..|tok|]] + Words(tok[|tok|..]);
    } else if IsSpace(pre[0]) {
      assert s[1..] == pre[1..] + " " + tok;
      LastWordAfterSpace(pre[1..], tok);
    } else {
      assert s[0] == pre[0] && s[|pre|] == ' ';
      TokenEndBefore(s, |pre|);
      var n := TokenEnd(s);
      assert s[n..] == pre[n..] + " " + tok;
      LastWordAfterSpace(pre[n..], tok);
      assert Words(s) == [s[..n]] + Words(s[n..]);
    }
  }
}
