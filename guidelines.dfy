/**
 * DataProcessor.chunk_guidelines: the contents of the guidelines file split
 * on a literal separator, leftmost occurrence first, occurrences never
 * overlapping, every chunk kept verbatim (no trimming, no dropping of empty
 * chunks).
 */
module Guidelines {
  import opened Outcomes

  /** The separator used when none is given: a blank line. */
  const DefaultSeparator: string := "\n\n"

  /** Why chunk_guidelines raises instead of returning. */
  datatype ChunkError =
    | FileNotFound(path: string)  // FileNotFoundError: the path does not exist
    | EmptySeparator              // ValueError from `str.split("")`

  /** `sep` occurs in `s` starting at position `i`. */
  predicate OccursAt(s: string, sep: string, i: int)
  {
    0 <= i && i + |sep| <= |s| && s[i..i + |sep|] == sep
  }

  predicate Contains(s: string, sep: string)
  {
    exists i :: 0 <= i <= |s| && OccursAt(s, sep, i)
  }

  /** Occurrences in `s[1..]` are the occurrences in `s` shifted by one. */
  lemma OccursShift(s: string, sep: string, j: int)
    requires |s| > 0 && 0 <= j
    ensures OccursAt(s[1..], sep, j) <==> OccursAt(s, sep, j + 1)
  {
    if j + |sep| <= |s| - 1 {
      assert s[1..][j..j + |sep|] == s[j + 1..j + 1 + |sep|];
    }
  }

  /** Occurrences that end by position `i` are the same in `s` and `s[..i]`. */
  lemma OccursInPrefix(s: string, sep: string, i: int, j: int)
    requires 0 <= i <= |s| && 0 <= j
    ensures OccursAt(s[..i], sep, j) <==> (j + |sep| <= i && OccursAt(s, sep, j))
  {
    if j + |sep| <= i {
      assert s[..i][j..j + |sep|] == s[j..j + |sep|];
    }
  }

  /** The leftmost occurrence of `sep` in `s`, as `str.find` reports it. */
  function Find(s: string, sep: string): (r: Option<nat>)
    ensures r.Some? ==> OccursAt(s, sep, r.value) && forall j :: 0 <= j < r.value ==> !OccursAt(s, sep, j)
    ensures r.None? ==> !Contains(s, sep)
    decreases |s|
  {
    if |s| < |sep| then None
    else if s[..|sep|] == sep then Some(0)
    else
      var rest := Find(s[1..], sep);
      assert forall j :: 1 <= j ==> (OccursAt(s, sep, j) <==> OccursAt(s[1..], sep, j - 1)) by {
        forall j | 1 <= j ensures OccursAt(s, sep, j) <==> OccursAt(s[1..], sep, j - 1) {
          OccursShift(s, sep, j - 1);
        }
      }
      assert !OccursAt(s, sep, 0);
      match rest
      case None => None
      case Some(k) => Some(k + 1)
  }

  /** `s.split(sep)` for a non-empty separator. */
  function Split(s: string, sep: string): (chunks: seq<string>)
    requires |sep| > 0
    ensures |chunks| >= 1
    decreases |s|
  {
    match Find(s, sep)
    case None => [s]
    case Some(i) => [s[..i]] + Split(s[i + |sep|..], sep)
  }

  /** `sep.join(chunks)`. */
  function Join(chunks: seq<string>, sep: string): string
  {
    if |chunks| == 0 then ""
    else if |chunks| == 1 then chunks[0]
    else chunks[0] + sep + Join(chunks[1..], sep)
  }

  /** The number of occurrences a left-to-right scan finds when every
      occurrence it finds is skipped as a whole (non-overlapping count). */
  function Count(s: string, sep: string): nat
    requires |sep| > 0
    decreases |s|
  {
    if |s| < |sep| then 0
    else if s[..|sep|] == sep then 1 + Count(s[|sep|..], sep)
    else Count(s[1..], sep)
  }

  lemma JoinCons(head: string, tail: seq<string>, sep: string)
    requires |tail| >= 1
    ensures Join([head] + tail, sep) == head + sep + Join(tail, sep)
  {
    assert ([head] + tail)[1..] == tail;
  }

  lemma SplitAround(s: string, sep: string, i: int)
    requires OccursAt(s, sep, i)
    ensures s == s[..i] + sep + s[i + |sep|..]
  {
    assert s == s[..i] + s[i..i + |sep|] + s[i + |sep|..];
  }

  /** Joining the chunks with the separator gives back the split text. */
  lemma {:induction false} JoinSplit(s: string, sep: string)
    requires |sep| > 0
    ensures Join(Split(s, sep), sep) == s
    decreases |s|
  {
    match Find(s, sep)
    case None =>
    case Some(i) =>
      var rest := s[i + |sep|..];
      JoinSplit(rest, sep);
      JoinCons(s[..i], Split(rest, sep), sep);
      SplitAround(s, sep, i);
  }

  /** No chunk contains the separator. */
  lemma {:induction false} ChunksAvoidSeparator(s: string, sep: string)
    requires |sep| > 0
    ensures forall c :: c in Split(s, sep) ==> !Contains(c, sep)
    decreases |s|
  {
    match Find(s, sep)
    case None =>
    case Some(i) =>
      var rest := s[i + |sep|..];
      ChunksAvoidSeparator(rest, sep);
      forall j ensures !OccursAt(s[..i], sep, j) {
        if 0 <= j {
          OccursInPrefix(s, sep, i, j);
        }
      }
  }

  /** The first chunk ends at the leftmost occurrence: the chunk followed by
      all but the last character of the separator holds no occurrence. */
  lemma FirstCutIsLeftmost(s: string, sep: string, i: nat)
    requires |sep| > 0 && Find(s, sep) == Some(i)
    ensures !Contains(s[..i] + sep[..|sep| - 1], sep)
  {
    var m := i + |sep| - 1;
    assert s[i..m] == s[i..i + |sep|][..|sep| - 1];
    assert s[..m] == s[..i] + s[i..m];
    forall j | 0 <= j <= m ensures !OccursAt(s[..m], sep, j) {
      OccursInPrefix(s, sep, m, j);
    }
  }

  /** Every cut falls at the leftmost occurrence of the separator in what is
      left of the text: no chunk but the last, extended by all but the last
      character of the separator, holds an occurrence. */
  lemma {:induction false} SplitCutsAtLeftmost(s: string, sep: string)
    requires |sep| > 0
    ensures forall k :: 0 <= k < |Split(s, sep)| - 1 ==> !Contains(Split(s, sep)[k] + sep[..|sep| - 1], sep)
    decreases |s|
  {
    match Find(s, sep)
    case None =>
    case Some(i) =>
      var rest := s[i + |sep|..];
      var chunks := Split(s, sep);
      SplitCutsAtLeftmost(rest, sep);
      FirstCutIsLeftmost(s, sep, i);
      assert chunks == [s[..i]] + Split(rest, sep);
      forall k | 0 < k < |chunks| - 1 ensures !Contains(chunks[k] + sep[..|sep| - 1], sep) {
        assert chunks[k] == Split(rest, sep)[k - 1];
      }
  }

  /** Positions before the first occurrence do not change the count. */
  lemma {:induction false} CountSkip(s: string, sep: string, i: nat)
    requires |sep| > 0 && i <= |s|
    requires forall j :: 0 <= j < i ==> !OccursAt(s, sep, j)
    ensures Count(s, sep) == Count(s[i..], sep)
    decreases i
  {
    if i > 0 && |s| >= |sep| {
      assert !OccursAt(s, sep, 0);
      forall j | 0 <= j < i - 1 ensures !OccursAt(s[1..], sep, j) {
        OccursShift(s, sep, j);
      }
      CountSkip(s[1..], sep, i - 1);
      assert s[1..][i - 1..] == s[i..];
    }
  }

  /** There is one chunk more than there are (non-overlapping) occurrences. */
  lemma {:induction false} SplitCount(s: string, sep: string)
    requires |sep| > 0
    ensures |Split(s, sep)| == Count(s, sep) + 1
    decreases |s|
  {
    match Find(s, sep)
    case None =>
      CountSkip(s, sep, |s|);
    case Some(i) =>
      var rest := s[i + |sep|..];
      SplitCount(rest, sep);
      CountSkip(s, sep, i);
      var t := s[i..];
      assert t[..|sep|] == sep;
      assert t[|sep|..] == rest;
  }

  /** chunk_guidelines on the file's contents, `None` when the path does not
      exist. The existence check comes first, the separator is checked by the
      split itself. */
  function ChunkGuidelines(path: string, contents: Option<string>, separator: string): (r: Result<seq<string>, ChunkError>)
    ensures contents.None? ==> r == Err(FileNotFound(path))
    ensures contents.Some? && separator == "" ==> r == Err(EmptySeparator)
    ensures r.Ok? <==> contents.Some? && separator != ""
    ensures r.Ok? ==> Join(r.value, separator) == contents.value
    ensures r.Ok? ==> |r.value| == Count(contents.value, separator) + 1
    ensures r.Ok? ==> forall c :: c in r.value ==> !Contains(c, separator)
    ensures r.Ok? ==> forall k :: 0 <= k < |r.value| - 1 ==>
              !Contains(r.value[k] + separator[..|separator| - 1], separator)
  {
    match contents
    case None => Err(FileNotFound(path))
    case Some(text) =>
      if separator == "" then Err(EmptySeparator)
      else
        JoinSplit(text, separator);
        SplitCount(text, separator);
        ChunksAvoidSeparator(text, separator);
        SplitCutsAtLeftmost(text, separator);
        Ok(Split(text, separator))
  }

  /** The default separator splits on blank lines. */
  lemma BlankLineExample()
    ensures ChunkGuidelines("guidelines.txt", Some("a\n\nb\n\nc"), DefaultSeparator) == Ok(["a", "b", "c"])
  {
    var s := "a\n\nb\n\nc";
    assert s[..2] == "a\n";
    assert s[1..][..2] == DefaultSeparator;
    assert Find(s, DefaultSeparator) == Some(1);
    var t := s[3..];
    assert t == "b\n\nc";
    assert t[..2] == "b\n";
    assert t[1..][..2] == DefaultSeparator;
    assert Find(t, DefaultSeparator) == Some(1);
    var u := t[3..];
    assert u == "c";
    assert Find(u, DefaultSeparator) == None;
    assert Split(u, DefaultSeparator) == ["c"];
    assert t[..1] == "b";
    assert Split(t, DefaultSeparator) == ["b", "c"];
    assert s[..1] == "a";
    assert Split(s, DefaultSeparator) == ["a", "b", "c"];
  }

  /** Three newlines hold two overlapping blank-line separators; the leftmost
      one is cut and the remaining newline stays in the next chunk. */
  lemma OverlappingSeparatorExample()
    ensures ChunkGuidelines("guidelines.txt", Some("a\n\n\nb"), DefaultSeparator) == Ok(["a", "\nb"])
  {
    var s := "a\n\n\nb";
    assert s[..2] == "a\n";
    assert s[1..][..2] == DefaultSeparator;
    assert Find(s, DefaultSeparator) == Some(1);
    var t := s[3..];
    assert t == "\nb";
    assert t[..2][1] == 'b' && DefaultSeparator[1] == '\n';
    assert t[1..] == "b";
    assert Find(t, DefaultSeparator) == None;
    assert Split(t, DefaultSeparator) == ["\nb"];
    assert s[..1] == "a";
    assert Split(s, DefaultSeparator) == ["a", "\nb"];
  }
}
