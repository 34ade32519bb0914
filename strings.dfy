/**
 * The few Python string operations the loader relies on, written out so
 * that their behaviour is part of the model: `string.find`, `string.replace`
 * (with a non-empty pattern), `string.split` on one separator character,
 * the slice `line[:-1]`, and the tab-joined rows the output files receive.
 */
module Strings {

  /** `sub` occurs in `s` starting at index `i`. */
  ghost predicate OccursAt(s: string, sub: string, i: int)
  {
    0 <= i && i + |sub| <= |s| && s[i..i + |sub|] == sub
  }

  /** `sub` occurs somewhere in `s`. */
  ghost predicate Contains(s: string, sub: string)
  {
    exists i :: OccursAt(s, sub, i)
  }

  /** An occurrence in `s[1..]` is an occurrence in `s`, one index further on. */
  lemma OccursAtTail(s: string, sub: string, j: int)
    requires |s| > 0 && j >= 0
    ensures OccursAt(s[1..], sub, j) <==> OccursAt(s, sub, j + 1)
  {
    if 0 <= j && j + |sub| <= |s| - 1 {
      assert s[1..][j..j + |sub|] == s[j + 1..j + 1 + |sub|];
    }
  }

  /**
   * Python's `string.find(s, sub)`: the lowest index at which `sub`
   * occurs in `s`, or -1 when it occurs nowhere.
   */
  function Find(s: string, sub: string): (r: int)
    ensures -1 <= r <= |s|
    ensures r >= 0 ==> OccursAt(s, sub, r) && forall j :: 0 <= j < r ==> !OccursAt(s, sub, j)
    ensures r < 0 ==> forall j :: !OccursAt(s, sub, j)
    decreases |s|
  {
    if |sub| > |s| then
      -1
    else if s[..|sub|] == sub then
      0
    else
      var k := Find(s[1..], sub);
      if k < 0 then
        NoOccurrenceShift(s, sub, |s|);
        -1
      else
        NoOccurrenceShift(s, sub, k);
        OccursAtTail(s, sub, k);
        k + 1
  }

  /** No occurrence in `s` at 0 nor in `s[1..]` below `n` means none in `s` below `n + 1`. */
  lemma NoOccurrenceShift(s: string, sub: string, n: int)
    requires |s| > 0 && !OccursAt(s, sub, 0)
    requires forall j :: 0 <= j < n ==> !OccursAt(s[1..], sub, j)
    ensures forall j :: 0 <= j < n + 1 ==> !OccursAt(s, sub, j)
  {
    forall j | 1 <= j < n + 1 ensures !OccursAt(s, sub, j) {
      OccursAtTail(s, sub, j - 1);
    }
  }

  /** The test the loader writes as `string.find(s, sub) < 0` means "does not contain". */
  lemma FindNegativeIff(s: string, sub: string)
    ensures Find(s, sub) < 0 <==> !Contains(s, sub)
  {
    var r := Find(s, sub);
    if r >= 0 {
      assert OccursAt(s, sub, r);
    }
  }

  /**
   * Python's `string.replace(s, pat, rep)` for a non-empty `pat`: every
   * occurrence found scanning from the left, without overlap, is replaced
   * by `rep`; the text produced by a replacement is not scanned again.
   */
  function Replace(s: string, pat: string, rep: string): (r: string)
    requires |pat| > 0
    ensures !Contains(s, pat) ==> r == s
    decreases |s|
  {
    if |s| < |pat| then
      s
    else if s[..|pat|] == pat then
      assert OccursAt(s, pat, 0);
      rep + Replace(s[|pat|..], pat, rep)
    else
      assert Contains(s[1..], pat) ==> Contains(s, pat) by {
        if Contains(s[1..], pat) {
          var j :| OccursAt(s[1..], pat, j);
          OccursAtTail(s, pat, j);
          assert OccursAt(s, pat, j + 1);
        }
      }
      [s[0]] + Replace(s[1..], pat, rep)
  }

  /** A pattern at the very front is replaced, and the scan resumes right after it. */
  lemma ReplaceFront(pat: string, rep: string, s: string)
    requires |pat| > 0
    ensures Replace(pat + s, pat, rep) == rep + Replace(s, pat, rep)
  {
    assert (pat + s)[..|pat|] == pat;
    assert (pat + s)[|pat|..] == s;
  }

  /**
   * Replacement in terms of `Find`: the first occurrence is replaced, the
   * text before it is kept, and the scan resumes right after it.
   */
  lemma {:induction false} ReplaceAtFirst(s: string, pat: string, rep: string)
    requires |pat| > 0 && Find(s, pat) >= 0
    ensures var k := Find(s, pat);
      Replace(s, pat, rep) == s[..k] + rep + Replace(s[k + |pat|..], pat, rep)
    decreases |s|
  {
    var k := Find(s, pat);
    assert OccursAt(s, pat, k);
    if s[..|pat|] == pat {
      ReplaceMatch(s, pat, rep);
      EmptyFront(s, rep, Replace(s[|pat|..], pat, rep));
    } else {
      var t := s[1..];
      FindStep(s, pat);
      ReplaceStep(s, pat, rep);
      ReplaceAtFirst(t, pat, rep);
      var tail := Replace(s[k + |pat|..], pat, rep);
      assert Find(t, pat) == k - 1;
      assert t[Find(t, pat) + |pat|..] == s[k + |pat|..];
      ConsPrefix(s, k, rep, tail);
    }
  }

  /** `Find` past a position where the pattern does not start. */
  lemma FindStep(s: string, pat: string)
    requires |pat| <= |s| && s[..|pat|] != pat
    ensures Find(s, pat) == if Find(s[1..], pat) < 0 then -1 else Find(s[1..], pat) + 1
  {
  }

  /** `Find` and `Replace` at a position where the pattern starts. */
  lemma ReplaceMatch(s: string, pat: string, rep: string)
    requires 0 < |pat| <= |s| && s[..|pat|] == pat
    ensures Find(s, pat) == 0
    ensures Replace(s, pat, rep) == rep + Replace(s[|pat|..], pat, rep)
  {
  }

  /** `Replace` past a position where the pattern does not start. */
  lemma ReplaceStep(s: string, pat: string, rep: string)
    requires 0 < |pat| <= |s| && s[..|pat|] != pat
    ensures Replace(s, pat, rep) == [s[0]] + Replace(s[1..], pat, rep)
  {
  }

  lemma EmptyFront(s: string, mid: string, tail: string)
    ensures mid + tail == s[..0] + mid + tail
  {
    assert s[..0] == [];
  }

  lemma ConsPrefix(s: string, k: nat, mid: string, tail: string)
    requires 0 < k <= |s|
    ensures [s[0]] + (s[1..][..k - 1] + mid + tail) == s[..k] + mid + tail
  {
    assert s[..k] == [s[0]] + s[1..][..k - 1];
  }

  /** A character that cannot start the pattern is kept, and the scan moves past it. */
  lemma ReplaceSkip(c: char, s: string, pat: string, rep: string)
    requires |pat| > 0 && c != pat[0]
    ensures Replace([c] + s, pat, rep) == [c] + Replace(s, pat, rep)
  {
    var t := [c] + s;
    assert t[1..] == s;
    if |t| >= |pat| {
      assert t[..|pat|][0] == c;
    }
  }

  /** A prefix free of the pattern's first character is kept as it is. */
  lemma {:induction false} ReplaceKeepsPrefix(a: string, s: string, pat: string, rep: string)
    requires |pat| > 0 && pat[0] !in a
    ensures Replace(a + s, pat, rep) == a + Replace(s, pat, rep)
    decreases |a|
  {
    if |a| == 0 {
      assert a + s == s;
      assert a + Replace(s, pat, rep) == Replace(s, pat, rep);
    } else {
      ReplaceKeepsPrefix(a[1..], s, pat, rep);
      SplitOffFirst(a, s);
      ReplaceSkip(a[0], a[1..] + s, pat, rep);
      SplitOffFirst(a, Replace(s, pat, rep));
    }
  }

  lemma SplitOffFirst(a: string, t: string)
    requires |a| > 0
    ensures a + t == [a[0]] + (a[1..] + t)
  {
  }

  /** With an empty replacement the result is never longer than the input. */
  lemma {:induction false} ReplaceEmptyShrinks(s: string, pat: string)
    requires |pat| > 0
    ensures |Replace(s, pat, "")| <= |s|
    decreases |s|
  {
    if |s| < |pat| {
    } else if s[..|pat|] == pat {
      ReplaceEmptyShrinks(s[|pat|..], pat);
    } else {
      ReplaceEmptyShrinks(s[1..], pat);
    }
  }

  /** Python's `s[:-1]`: everything but the last character (nothing left of ""). */
  function DropLast(s: string): (r: string)
    ensures |s| > 0 ==> r + [s[|s| - 1]] == s
    ensures |s| == 0 ==> r == s
  {
    if |s| == 0 then s else s[..|s| - 1]
  }

  /**
   * Python's `string.split(s, sep)` with an explicit one-character
   * separator: the maximal separator-free pieces between separators, so
   * that "" gives [""] and a separator at either end gives an empty piece.
   */
  function Split(s: string, sep: char): (r: seq<string>)
    ensures |r| > 0
    ensures forall i :: 0 <= i < |r| ==> sep !in r[i]
    decreases |s|
  {
    if |s| == 0 then
      [""]
    else
      var rest := Split(s[1..], sep);
      if s[0] == sep then
        [""] + rest
      else
        [[s[0]] + rest[0]] + rest[1..]
  }

  /** The pieces written back with `sep` between them (Python's `sep.join`). */
  function Join(fields: seq<string>, sep: char): string
    requires |fields| > 0
    decreases |fields|
  {
    if |fields| == 1 then fields[0] else fields[0] + [sep] + Join(fields[1..], sep)
  }

  /** No piece contains the separator. */
  ghost predicate FreeOf(fields: seq<string>, sep: char)
  {
    forall i :: 0 <= i < |fields| ==> sep !in fields[i]
  }

  /** Splitting loses nothing: joining the pieces gives back the input. */
  lemma {:induction false} JoinSplit(s: string, sep: char)
    ensures Join(Split(s, sep), sep) == s
    decreases |s|
  {
    if |s| > 0 {
      JoinSplit(s[1..], sep);
      var rest := Split(s[1..], sep);
      if s[0] == sep {
        assert Split(s, sep) == [""] + rest;
        assert ([""] + rest)[1..] == rest;
        assert s == [sep] + s[1..];
      } else {
        var r := Split(s, sep);
        assert r == [[s[0]] + rest[0]] + rest[1..];
        if |rest| == 1 {
          assert s == [s[0]] + rest[0];
        } else {
          assert r[1..] == rest[1..];
          assert Join(rest, sep) == rest[0] + [sep] + Join(rest[1..], sep);
          assert s == [s[0]] + s[1..];
        }
      }
    }
  }

  /** A separator-free prefix extends the first piece of what follows it. */
  lemma {:induction false} SplitPrefix(a: string, b: string, sep: char)
    requires sep !in a
    ensures Split(a + b, sep) == [a + Split(b, sep)[0]] + Split(b, sep)[1..]
    decreases |a|
  {
    var t := Split(b, sep);
    if |a| > 0 {
      SplitPrefix(a[1..], b, sep);
      var rest := Split(a[1..] + b, sep);
      assert rest == [a[1..] + t[0]] + t[1..];
      assert (a + b)[1..] == a[1..] + b;
      assert (a + b)[0] == a[0] && a[0] != sep;
      assert Split(a + b, sep) == [[a[0]] + rest[0]] + rest[1..];
      assert rest[0] == a[1..] + t[0] && rest[1..] == t[1..];
      assert [a[0]] + (a[1..] + t[0]) == a + t[0];
    } else {
      assert a + b == b;
      assert a + t[0] == t[0];
      assert Split(b, sep) == [Split(b, sep)[0]] + Split(b, sep)[1..];
    }
  }

  /** Joining separator-free pieces and splitting again gives the pieces back. */
  lemma {:induction false} SplitJoin(fields: seq<string>, sep: char)
    requires |fields| > 0
    requires FreeOf(fields, sep)
    ensures Split(Join(fields, sep), sep) == fields
    decreases |fields|
  {
    if |fields| == 1 {
      SplitPrefix(fields[0], "", sep);
      assert fields[0] + "" == fields[0];
    } else {
      var tail := Join(fields[1..], sep);
      SplitJoin(fields[1..], sep);
      assert Split([sep] + tail, sep) == [""] + fields[1..] by {
        assert ([sep] + tail)[1..] == tail;
      }
      SplitPrefix(fields[0], [sep] + tail, sep);
      var t := [""] + fields[1..];
      assert t[0] == "" && t[1..] == fields[1..];
      assert Join(fields, sep) == fields[0] + ([sep] + tail);
      assert Split(Join(fields, sep), sep) == [fields[0] + ""] + fields[1..];
      assert fields[0] + "" == fields[0];
      assert fields == [fields[0]] + fields[1..];
    }
  }

  /** Dropping the last character of joined pieces drops it from the last piece. */
  lemma {:induction false} JoinDropLast(fields: seq<string>, sep: char)
    requires |fields| > 0 && |fields[|fields| - 1]| > 0
    ensures DropLast(Join(fields, sep)) == Join(fields[..|fields| - 1] + [DropLast(fields[|fields| - 1])], sep)
    ensures |Join(fields, sep)| > 0
    decreases |fields|
  {
    var n := |fields|;
    var cut := fields[..n - 1] + [DropLast(fields[n - 1])];
    if n == 1 {
      assert cut == [DropLast(fields[0])];
    } else {
      var tail := fields[1..];
      JoinDropLast(tail, sep);
      assert tail[..|tail| - 1] + [DropLast(tail[|tail| - 1])] == cut[1..];
      assert cut[0] == fields[0];
      var jt := Join(tail, sep);
      assert Join(fields, sep) == fields[0] + [sep] + jt;
      assert DropLast(fields[0] + [sep] + jt) == fields[0] + [sep] + DropLast(jt);
    }
  }
}
