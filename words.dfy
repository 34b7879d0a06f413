/**
 The word count of the report: `len(book.split())`, where `str.split()`
 without a separator drops leading and trailing whitespace and cuts the
 text at every run of whitespace, so that no word is empty.
 */
module Words {
  import opened Chars

  /** A word as `split()` returns it: non-empty and free of whitespace. */
  predicate IsWord(w: string) {
    |w| > 0 && forall i :: 0 <= i < |w| ==> !IsSpace(w[i])
  }

  /** Length of the longest whitespace-free prefix of `s`. */
  function RunLength(s: string): (n: nat)
    ensures n <= |s|
    ensures forall i :: 0 <= i < n ==> !IsSpace(s[i])
    ensures n == |s| || IsSpace(s[n])
  {
    if s == [] || IsSpace(s[0]) then 0 else 1 + RunLength(s[1..])
  }

  /** `s.split()`: the maximal runs of non-whitespace characters, in order. */
  function Split(s: string): (words: seq<string>)
    ensures forall k :: 0 <= k < |words| ==> IsWord(words[k])
    decreases |s|
  {
    if s == [] then []
    else if IsSpace(s[0]) then Split(s[1..])
    else
      var n := RunLength(s);
      [s[..n]] + Split(s[n..])
  }

  /** `len(s.split())`. */
  function WordCount(s: string): nat {
    |Split(s)|
  }

  /** Position `i` of `s` is where a word begins. */
  predicate IsRunStart(s: string, i: nat)
    requires i < |s|
  {
    !IsSpace(s[i]) && (i == 0 || IsSpace(s[i - 1]))
  }

  /** The number of positions in `s[i..]` at which a word of `s` begins. */
  function RunsFrom(s: string, i: nat): nat
    requires i <= |s|
    decreases |s| - i
  {
    if i == |s| then 0 else (if IsRunStart(s, i) then 1 else 0) + RunsFrom(s, i + 1)
  }

  /** The number of maximal non-whitespace runs of `s`. */
  function Runs(s: string): nat {
    RunsFrom(s, 0)
  }

  /** Inside a run no new run begins. */
  lemma {:induction false} NoRunStartsInside(s: string, i: nat, j: nat)
    requires 0 < i <= j <= |s|
    requires forall k :: i - 1 <= k < j ==> !IsSpace(s[k])
    ensures RunsFrom(s, i) == RunsFrom(s, j)
    decreases j - i
  {
    if i < j {
      assert !IsRunStart(s, i);
      NoRunStartsInside(s, i + 1, j);
    }
  }

  /**
   From a position that is not in the middle of a word, `split()` finds
   exactly the words that begin from there on.
   */
  lemma {:induction false} SplitCountsRunsFrom(s: string, i: nat)
    requires i <= |s|
    requires i == 0 || i == |s| || IsSpace(s[i - 1]) || IsSpace(s[i])
    ensures |Split(s[i..])| == RunsFrom(s, i)
    decreases |s| - i
  {
    if i == |s| {
      assert s[i..] == [];
    } else if IsSpace(s[i]) {
      assert s[i..][1..] == s[i + 1..];
      assert !IsRunStart(s, i);
      SplitCountsRunsFrom(s, i + 1);
    } else {
      var t := s[i..];
      var n := RunLength(t);
      assert t[n..] == s[i + n..];
      assert IsRunStart(s, i);
      forall k | i <= k < i + n ensures !IsSpace(s[k]) {
        assert s[k] == t[k - i];
      }
      NoRunStartsInside(s, i + 1, i + n);
      assert i + n == |s| || IsSpace(s[i + n]) by {
        if i + n < |s| { assert s[i + n] == t[n]; }
      }
      SplitCountsRunsFrom(s, i + n);
    }
  }

  /** The word count is the number of maximal runs of non-whitespace characters. */
  lemma WordCountIsRunCount(s: string)
    ensures WordCount(s) == Runs(s)
  {
    assert s[0..] == s;
    SplitCountsRunsFrom(s, 0);
  }

  /** The maximal non-whitespace run that begins at position `i` of `s`. */
  function RunAt(s: string, i: nat): string
    requires i <= |s|
  {
    s[i..i + RunLength(s[i..])]
  }

  /** The maximal runs that begin at the word starts of `s` from position `i` on, in order. */
  function RunsAt(s: string, i: nat): seq<string>
    requires i <= |s|
    decreases |s| - i
  {
    if i == |s| then [] else (if IsRunStart(s, i) then [RunAt(s, i)] else []) + RunsAt(s, i + 1)
  }

  /** Inside a run no new word begins. */
  lemma {:induction false} NoWordStartsInside(s: string, i: nat, j: nat)
    requires 0 < i <= j <= |s|
    requires forall k :: i - 1 <= k < j ==> !IsSpace(s[k])
    ensures RunsAt(s, i) == RunsAt(s, j)
    decreases j - i
  {
    if i < j {
      assert !IsRunStart(s, i);
      NoWordStartsInside(s, i + 1, j);
    }
  }

  /** At whitespace, `split()` of the rest is `split()` of the rest after it. */
  lemma SplitSkipsSpace(s: string, j: nat)
    requires j < |s| && IsSpace(s[j])
    ensures Split(s[j..]) == Split(s[j + 1..])
  {
    assert s[j..][1..] == s[j + 1..];
  }

  /** A run at a word start is non-empty, free of whitespace, and ends at whitespace or at the end of `s`. */
  lemma RunBounds(s: string, j: nat)
    requires j < |s| && !IsSpace(s[j])
    ensures 0 < RunLength(s[j..]) && j + RunLength(s[j..]) <= |s|
    ensures forall m :: j <= m < j + RunLength(s[j..]) ==> !IsSpace(s[m])
    ensures j + RunLength(s[j..]) == |s| || IsSpace(s[j + RunLength(s[j..])])
  {
    var t := s[j..];
    var n := RunLength(t);
    forall m | j <= m < j + n ensures !IsSpace(s[m]) {
      assert s[m] == t[m - j];
    }
    if j + n < |s| {
      assert s[j + n] == t[n];
    }
  }

  /** A run at a word start ends at whitespace or at the end of `s`. */
  lemma RunEnd(s: string, j: nat)
    requires j < |s| && !IsSpace(s[j])
    ensures j < j + RunLength(s[j..]) <= |s|
    ensures j + RunLength(s[j..]) == |s| || IsSpace(s[j + RunLength(s[j..])])
  {
    RunBounds(s, j);
  }

  /** At a word start, `split()` of the rest takes the whole run as its first word. */
  lemma SplitTakesRun(s: string, j: nat)
    requires j < |s| && !IsSpace(s[j])
    requires j + RunLength(s[j..]) <= |s|
    ensures Split(s[j..]) == [RunAt(s, j)] + Split(s[j + RunLength(s[j..])..])
  {
    var t := s[j..];
    var n := RunLength(t);
    assert t[n..] == s[j + n..];
    assert t[..n] == s[j..j + n];
  }

  /** At a word start, the runs from there on are its own run followed by the runs after it. */
  lemma RunsAtStart(s: string, j: nat)
    requires j < |s| && IsRunStart(s, j)
    ensures j + RunLength(s[j..]) <= |s|
    ensures RunsAt(s, j) == [RunAt(s, j)] + RunsAt(s, j + RunLength(s[j..]))
  {
    var n := RunLength(s[j..]);
    assert 0 < n && j + n <= |s| by {
      RunBounds(s, j);
    }
    assert RunsAt(s, j + 1) == RunsAt(s, j + n) by {
      RunBounds(s, j);
      NoWordStartsInside(s, j + 1, j + n);
    }
    assert RunsAt(s, j) == [RunAt(s, j)] + RunsAt(s, j + 1);
  }

  /** The whitespace step: `split()` from a whitespace position agrees with the runs if it does from the next one. */
  lemma SplitStepSpace(s: string, j: nat)
    requires j < |s| && IsSpace(s[j])
    requires Split(s[j + 1..]) == RunsAt(s, j + 1)
    ensures Split(s[j..]) == RunsAt(s, j)
  {
    SplitSkipsSpace(s, j);
    assert !IsRunStart(s, j);
  }

  /** The run step: `split()` from a word start agrees with the runs if it does from the end of the run. */
  lemma SplitStepRun(s: string, j: nat)
    requires j < |s| && !IsSpace(s[j]) && (j == 0 || IsSpace(s[j - 1]))
    requires j + RunLength(s[j..]) <= |s|
    requires Split(s[j + RunLength(s[j..])..]) == RunsAt(s, j + RunLength(s[j..]))
    ensures Split(s[j..]) == RunsAt(s, j)
  {
    var n := RunLength(s[j..]);
    assert Split(s[j..]) == [RunAt(s, j)] + Split(s[j + n..]) by {
      SplitTakesRun(s, j);
    }
    assert RunsAt(s, j) == [RunAt(s, j)] + RunsAt(s, j + n) by {
      assert IsRunStart(s, j);
      RunsAtStart(s, j);
    }
  }

  /** From a position that is not in the middle of a word, `split()` returns exactly the runs that begin from there on. */
  lemma {:induction false} SplitIsRunsAt(s: string, j: nat)
    requires j <= |s|
    requires j == 0 || j == |s| || IsSpace(s[j - 1]) || IsSpace(s[j])
    ensures Split(s[j..]) == RunsAt(s, j)
    decreases |s| - j
  {
    if j == |s| {
      assert s[j..] == [];
    } else if IsSpace(s[j]) {
      SplitIsRunsAt(s, j + 1);
      SplitStepSpace(s, j);
    } else {
      RunEnd(s, j);
      SplitIsRunsAt(s, j + RunLength(s[j..]));
      SplitStepRun(s, j);
    }
  }

  /**
   `split()` cuts exactly at the word boundaries: its words are the maximal
   non-whitespace runs of the text, one for each position where a word
   begins, in the order of those positions.
   */
  lemma SplitIsRuns(s: string)
    ensures Split(s) == RunsAt(s, 0)
  {
    assert s[0..] == s;
    SplitIsRunsAt(s, 0);
  }

  /** The word count is zero exactly when the text is empty or all whitespace. */
  lemma {:induction false} WordCountZero(s: string)
    ensures WordCount(s) == 0 <==> forall i :: 0 <= i < |s| ==> IsSpace(s[i])
    decreases |s|
  {
    if s != [] {
      WordCountZero(s[1..]);
      if IsSpace(s[0]) {
        forall i | 0 < i < |s| ensures s[i] == s[1..][i - 1] { }
      }
    }
  }

  /** The non-whitespace characters of `s`, in order. */
  function NonSpace(s: string): string {
    if s == [] then [] else (if IsSpace(s[0]) then [] else [s[0]]) + NonSpace(s[1..])
  }

  function Concat(words: seq<string>): string {
    if words == [] then [] else words[0] + Concat(words[1..])
  }

  lemma {:induction false} NonSpaceOfRun(s: string, n: nat)
    requires n <= |s|
    requires forall i :: 0 <= i < n ==> !IsSpace(s[i])
    ensures NonSpace(s) == s[..n] + NonSpace(s[n..])
  {
    if n > 0 {
      assert s[1..][..n - 1] == s[1..n];
      assert s[1..][n - 1..] == s[n..];
      NonSpaceOfRun(s[1..], n - 1);
      assert [s[0]] + s[1..n] == s[..n];
    } else {
      assert s[0..] == s;
    }
  }

  /** Joining the words gives back every non-whitespace character of the text, in order. */
  lemma {:induction false} SplitKeepsText(s: string)
    ensures Concat(Split(s)) == NonSpace(s)
    decreases |s|
  {
    if s != [] {
      if IsSpace(s[0]) {
        SplitKeepsText(s[1..]);
      } else {
        var n := RunLength(s);
        NonSpaceOfRun(s, n);
        SplitKeepsText(s[n..]);
        assert ([s[..n]] + Split(s[n..]))[1..] == Split(s[n..]);
      }
    }
  }
}
