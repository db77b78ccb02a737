/**
 The two Python string operations the column-name synthesis relies on:
 `str.strip(chars)`, which removes characters drawn from a SET at both ends,
 and `str.replace(old, "")` with a non-empty `old`, which deletes the
 non-overlapping occurrences of `old` found in one left-to-right scan.
 `str.split(sep)` and `sep.join(parts)` are modelled as well. `Split` runs
 the same scan as the deletion, so it restates it rather than checks it; the
 deletion is pinned down by the leftmost-first rule (`DeleteAllUnique`).
 */
module Text {
  import opened Seqs

  // ---------------------------------------------------------------------
  // str.strip(chars)
  // ---------------------------------------------------------------------

  /** `s` with its leading characters from `cs` removed (`str.lstrip(chars)`). */
  function TrimLeft(s: string, cs: set<char>): string
  {
    if s != [] && s[0] in cs then TrimLeft(s[1..], cs) else s
  }

  /** `s` with its trailing characters from `cs` removed (`str.rstrip(chars)`). */
  function TrimRight(s: string, cs: set<char>): string
  {
    if s != [] && s[|s| - 1] in cs then TrimRight(s[..|s| - 1], cs) else s
  }

  /** `TrimLeft` keeps a suffix of `s`. */
  lemma {:induction false} TrimLeftSuffix(s: string, cs: set<char>)
    ensures |TrimLeft(s, cs)| <= |s|
    ensures TrimLeft(s, cs) == s[|s| - |TrimLeft(s, cs)|..]
  {
    if s != [] && s[0] in cs {
      var tail := s[1..];
      TrimLeftSuffix(tail, cs);
      var n := |s| - |TrimLeft(tail, cs)|;
      assert tail[n - 1..] == s[n..];
    }
  }

  /** Every character `TrimLeft` removes is drawn from `cs`. */
  lemma {:induction false} TrimLeftRemoved(s: string, cs: set<char>)
    ensures forall t :: 0 <= t < |s| - |TrimLeft(s, cs)| ==> s[t] in cs
  {
    if s != [] && s[0] in cs {
      var tail := s[1..];
      TrimLeftRemoved(tail, cs);
      forall t | 1 <= t < |s| - |TrimLeft(tail, cs)|
        ensures s[t] in cs
      {
        assert s[t] == tail[t - 1];
      }
    }
  }

  /** `TrimLeft` stops at a character outside `cs`. */
  lemma {:induction false} TrimLeftStops(s: string, cs: set<char>)
    ensures TrimLeft(s, cs) == [] || TrimLeft(s, cs)[0] !in cs
  {
    if s != [] && s[0] in cs {
      TrimLeftStops(s[1..], cs);
    }
  }

  /** `TrimLeft` removes a prefix drawn from `cs` and stops at a character outside it. */
  lemma TrimLeftSound(s: string, cs: set<char>)
    ensures |TrimLeft(s, cs)| <= |s|
    ensures TrimLeft(s, cs) == s[|s| - |TrimLeft(s, cs)|..]
    ensures forall t :: 0 <= t < |s| - |TrimLeft(s, cs)| ==> s[t] in cs
    ensures TrimLeft(s, cs) == [] || TrimLeft(s, cs)[0] !in cs
  {
    TrimLeftSuffix(s, cs);
    TrimLeftRemoved(s, cs);
    TrimLeftStops(s, cs);
  }

  /** `TrimRight` keeps a prefix of `s`. */
  lemma {:induction false} TrimRightPrefix(s: string, cs: set<char>)
    ensures |TrimRight(s, cs)| <= |s|
    ensures TrimRight(s, cs) == s[..|TrimRight(s, cs)|]
  {
    if s != [] && s[|s| - 1] in cs {
      var init := s[..|s| - 1];
      TrimRightPrefix(init, cs);
      assert init[..|TrimRight(init, cs)|] == s[..|TrimRight(init, cs)|];
    }
  }

  /** Every character `TrimRight` removes is drawn from `cs`. */
  lemma {:induction false} TrimRightRemoved(s: string, cs: set<char>)
    ensures forall t :: |TrimRight(s, cs)| <= t < |s| ==> s[t] in cs
  {
    if s != [] && s[|s| - 1] in cs {
      var init := s[..|s| - 1];
      TrimRightRemoved(init, cs);
      forall t | |TrimRight(init, cs)| <= t < |s| - 1
        ensures s[t] in cs
      {
        assert s[t] == init[t];
      }
    }
  }

  /** `TrimRight` stops at a character outside `cs`. */
  lemma {:induction false} TrimRightStops(s: string, cs: set<char>)
    ensures TrimRight(s, cs) == [] || TrimRight(s, cs)[|TrimRight(s, cs)| - 1] !in cs
  {
    if s != [] && s[|s| - 1] in cs {
      TrimRightStops(s[..|s| - 1], cs);
    }
  }

  /** `TrimRight` removes a suffix drawn from `cs` and stops at a character outside it. */
  lemma TrimRightSound(s: string, cs: set<char>)
    ensures |TrimRight(s, cs)| <= |s|
    ensures TrimRight(s, cs) == s[..|TrimRight(s, cs)|]
    ensures forall t :: |TrimRight(s, cs)| <= t < |s| ==> s[t] in cs
    ensures TrimRight(s, cs) == [] || TrimRight(s, cs)[|TrimRight(s, cs)| - 1] !in cs
  {
    TrimRightPrefix(s, cs);
    TrimRightRemoved(s, cs);
    TrimRightStops(s, cs);
  }

  /**
   `s[i..j]` is what stripping `cs` from `s` leaves: everything before `i`
   and from `j` on is drawn from `cs`, and a non-empty middle starts and ends
   on a character outside `cs`.
   */
  predicate StripBounds(s: string, cs: set<char>, i: int, j: int)
  {
    && 0 <= i <= j <= |s|
    && (forall t :: 0 <= t < i ==> s[t] in cs)
    && (forall t :: j <= t < |s| ==> s[t] in cs)
    && (i < j ==> s[i] !in cs && s[j - 1] !in cs)
  }

  /** Python's `s.strip(chars)` where `cs` is the set of characters of `chars`. */
  function Strip(s: string, cs: set<char>): string
  {
    TrimRight(TrimLeft(s, cs), cs)
  }

  /** What `Strip` leaves is the middle of a split of `s` meeting `StripBounds`. */
  lemma StripSound(s: string, cs: set<char>)
    ensures exists i, j :: StripBounds(s, cs, i, j) && Strip(s, cs) == s[i..j]
  {
    var left := TrimLeft(s, cs);
    var r := TrimRight(left, cs);
    TrimLeftSound(s, cs);
    TrimRightSound(left, cs);
    var i := |s| - |left|;
    assert StripBounds(s, cs, i, i + |r|) && r == s[i..i + |r|];
  }

  lemma {:induction false} TrimLeftAt(s: string, cs: set<char>, i: nat)
    requires i <= |s|
    requires forall t :: 0 <= t < i ==> s[t] in cs
    requires i == |s| || s[i] !in cs
    ensures TrimLeft(s, cs) == s[i..]
  {
    if i > 0 {
      TrimLeftAt(s[1..], cs, i - 1);
    }
  }

  lemma {:induction false} TrimRightAt(s: string, cs: set<char>, j: nat)
    requires j <= |s|
    requires forall t :: j <= t < |s| ==> s[t] in cs
    requires j == 0 || s[j - 1] !in cs
    ensures TrimRight(s, cs) == s[..j]
  {
    if j < |s| {
      TrimRightAt(s[..|s| - 1], cs, j);
      assert s[..|s| - 1][..j] == s[..j];
    }
  }

  /**
   The converse of `Strip`'s contract: any split of `s` meeting
   `StripBounds` has exactly `Strip(s, cs)` as its middle, so the two
   together characterise `str.strip` completely.
   */
  lemma StripUnique(s: string, cs: set<char>, i: int, j: int)
    requires StripBounds(s, cs, i, j)
    ensures Strip(s, cs) == s[i..j]
  {
    if i < j {
      TrimLeftAt(s, cs, i);
      TrimRightOfSuffix(s, cs, i, j);
    } else {
      TrimLeftAt(s, cs, |s|);
    }
  }

  lemma TrimRightOfSuffix(s: string, cs: set<char>, i: int, j: int)
    requires StripBounds(s, cs, i, j) && i < j
    ensures TrimRight(s[i..], cs) == s[i..j]
  {
    var left := s[i..];
    forall t | j - i <= t < |left|
      ensures left[t] in cs
    {
      assert left[t] == s[i + t];
    }
    TrimRightAt(left, cs, j - i);
    assert left[..j - i] == s[i..j];
  }

  /** `s` with every character from `cs` deleted, the others kept in order. */
  function RemoveChars(s: string, cs: set<char>): (r: string)
    ensures |r| <= |s|
    ensures forall c :: c in r <==> c in s && c !in cs
  {
    if s == [] then []
    else (if s[0] in cs then [] else [s[0]]) + RemoveChars(s[1..], cs)
  }

  // ---------------------------------------------------------------------
  // str.replace(old, "") and str.split(sep) / sep.join(parts)
  // ---------------------------------------------------------------------

  /** `p` occurs in `s` as a contiguous block. */
  ghost predicate Contains(s: string, p: string)
  {
    exists k :: OccursAt(s, p, k)
  }

  /** `p` occurs in `s` starting at position `k`. */
  predicate OccursAt(s: string, p: string, k: int)
  {
    0 <= k <= |s| - |p| && s[k..k + |p|] == p
  }

  /**
   Python's `s.replace(p, "")` for a non-empty `p`: a left-to-right scan that
   deletes each occurrence of `p` it meets and resumes after it.
   */
  function DeleteAll(s: string, p: string): (r: string)
    requires p != []
    ensures |r| <= |s|
    decreases |s|
  {
    if |s| < |p| then s
    else if s[..|p|] == p then DeleteAll(s[|p|..], p)
    else [s[0]] + DeleteAll(s[1..], p)
  }

  /** Python's `s.split(p)` for a non-empty `p`. */
  function Split(s: string, p: string): (parts: seq<string>)
    requires p != []
    ensures parts != []
    decreases |s|
  {
    if |s| < |p| then [s]
    else if s[..|p|] == p then [[]] + Split(s[|p|..], p)
    else
      var rest := Split(s[1..], p);
      [[s[0]] + rest[0]] + rest[1..]
  }

  /** Python's `p.join(parts)`. */
  function Join(parts: seq<string>, p: string): string
  {
    if parts == [] then []
    else if |parts| == 1 then parts[0]
    else parts[0] + p + Join(parts[1..], p)
  }

  /** Joining the pieces of a split with the separator gives the input back. */
  lemma {:induction false} JoinSplit(s: string, p: string)
    requires p != []
    ensures Join(Split(s, p), p) == s
    decreases |s|
  {
    if |s| < |p| {
    } else if s[..|p|] == p {
      JoinSplit(s[|p|..], p);
      JoinSplitAtMatch(s, p);
    } else {
      JoinSplit(s[1..], p);
      JoinSplitAtOther(s, p);
    }
  }

  /** The step of `JoinSplit` where `s` starts with `p`. */
  lemma JoinSplitAtMatch(s: string, p: string)
    requires p != [] && |s| >= |p| && s[..|p|] == p
    requires Join(Split(s[|p|..], p), p) == s[|p|..]
    ensures Join(Split(s, p), p) == s
  {
    var rest := Split(s[|p|..], p);
    assert Split(s, p) == [[]] + rest;
    JoinEmptyHead(rest, p);
    SliceJoin(s, |p|);
  }

  /** The step of `JoinSplit` where `s` does not start with `p`. */
  lemma JoinSplitAtOther(s: string, p: string)
    requires p != [] && |s| >= |p| && s[..|p|] != p
    requires Join(Split(s[1..], p), p) == s[1..]
    ensures Join(Split(s, p), p) == s
  {
    var rest := Split(s[1..], p);
    assert Split(s, p) == [[s[0]] + rest[0]] + rest[1..];
    JoinCons(s[0], rest, p);
    SliceJoin(s, 1);
    assert s[..1] == [s[0]];
  }

  /** A leading empty piece contributes just one separator. */
  lemma JoinEmptyHead(parts: seq<string>, p: string)
    requires parts != []
    ensures Join([[]] + parts, p) == p + Join(parts, p)
  {
    var all: seq<string> := [[]] + parts;
    assert all[0] == [] && all[1..] == parts;
  }

  /** Putting a character in front of the first piece puts it in front of the join. */
  lemma JoinCons(c: char, parts: seq<string>, p: string)
    requires parts != []
    ensures Join([[c] + parts[0]] + parts[1..], p) == [c] + Join(parts, p)
  {
    var all := [[c] + parts[0]] + parts[1..];
    assert all[0] == [c] + parts[0] && all[1..] == parts[1..];
    if |parts| > 1 {
      assert Join(all, p) == ([c] + parts[0]) + p + Join(parts[1..], p);
      assert Join(parts, p) == parts[0] + p + Join(parts[1..], p);
    }
  }

  /** Deleting every occurrence is the same as splitting and joining with "". */
  lemma {:induction false} DeleteAllIsSplitJoin(s: string, p: string)
    requires p != []
    ensures DeleteAll(s, p) == Concat(Split(s, p))
    decreases |s|
  {
    if |s| < |p| {
      assert Concat([s]) == s + Concat([]);
    } else if s[..|p|] == p {
      DeleteAllIsSplitJoin(s[|p|..], p);
      var rest := Split(s[|p|..], p);
      assert Split(s, p) == [[]] + rest;
      ConcatCons([], rest);
    } else {
      var rest := Split(s[1..], p);
      DeleteAllIsSplitJoin(s[1..], p);
      assert Split(s, p) == [[s[0]] + rest[0]] + rest[1..];
      assert DeleteAll(s, p) == [s[0]] + DeleteAll(s[1..], p);
      ConcatCons([s[0]] + rest[0], rest[1..]);
      ConcatCons(rest[0], rest[1..]);
      assert rest == [rest[0]] + rest[1..];
    }
  }

  lemma ConcatCons(x: string, xss: seq<string>)
    ensures Concat([x] + xss) == x + Concat(xss)
  {
    assert ([x] + xss)[1..] == xss;
  }

  /** The first piece of a split is a prefix of the input. */
  lemma {:induction false} SplitHeadPrefix(s: string, p: string)
    requires p != []
    ensures |Split(s, p)[0]| <= |s| && Split(s, p)[0] == s[..|Split(s, p)[0]|]
    decreases |s|
  {
    if |s| < |p| {
    } else if s[..|p|] == p {
    } else {
      SplitHeadPrefix(s[1..], p);
    }
  }

  /** No piece of a split contains the separator. */
  lemma {:induction false} SplitPiecesFree(s: string, p: string)
    requires p != []
    ensures forall k :: 0 <= k < |Split(s, p)| ==> !Contains(Split(s, p)[k], p)
    decreases |s|
  {
    var parts := Split(s, p);
    if |s| < |p| {
      assert parts == [s];
      assert !Contains(s, p);
    } else if s[..|p|] == p {
      SplitPiecesFree(s[|p|..], p);
      assert parts == [[]] + Split(s[|p|..], p);
      assert !Contains([], p);
    } else {
      var rest := Split(s[1..], p);
      SplitPiecesFree(s[1..], p);
      SplitHeadPrefix(s[1..], p);
      var head := [s[0]] + rest[0];
      assert parts == [head] + rest[1..];
      if Contains(head, p) {
        var k :| OccursAt(head, p, k);
        if k > 0 {
          assert rest[0][k - 1..k - 1 + |p|] == p;
          assert OccursAt(rest[0], p, k - 1);
        }
      }
      forall k | 0 <= k < |parts|
        ensures !Contains(parts[k], p)
      {
        if k > 0 {
          assert parts[k] == rest[k];
        }
      }
    }
  }

  /**
   The scan passes over characters that cannot start an occurrence: a prefix
   `q` none of whose characters is `p`'s first one is kept, and deletion
   goes on in the rest.
   */
  lemma {:induction false} DeleteAllPrefix(q: string, t: string, p: string)
    requires p != []
    requires forall k :: 0 <= k < |q| ==> q[k] != p[0]
    ensures DeleteAll(q + t, p) == q + DeleteAll(t, p)
  {
    if q == [] {
      assert q + t == t;
    } else {
      var s := q + t;
      var d := DeleteAll(t, p);
      DeleteAllPrefix(q[1..], t, p);
      assert s[0] == q[0] && s[1..] == q[1..] + t;
      DeleteAllSkip(s, p);
      assert DeleteAll(s, p) == [q[0]] + (q[1..] + d);
      assert [q[0]] + (q[1..] + d) == q + d;
    }
  }

  /** A string that does not start with `p`'s first character keeps that character. */
  lemma DeleteAllSkip(s: string, p: string)
    requires p != [] && s != [] && s[0] != p[0]
    ensures DeleteAll(s, p) == [s[0]] + DeleteAll(s[1..], p)
  {
    if |s| >= |p| {
      assert s[..|p|][0] == s[0];
    } else {
      assert s == [s[0]] + s[1..];
    }
  }

  /** A string without any occurrence of `p` is left as it is. */
  lemma {:induction false} DeleteAllAbsent(s: string, p: string)
    requires p != []
    requires !Contains(s, p)
    ensures DeleteAll(s, p) == s
    decreases |s|
  {
    if |s| >= |p| {
      assert !OccursAt(s, p, 0);
      assert !Contains(s[1..], p) by {
        if Contains(s[1..], p) {
          var k :| OccursAt(s[1..], p, k);
          assert s[1..][k..k + |p|] == s[k + 1..k + 1 + |p|];
          assert OccursAt(s, p, k + 1);
        }
      }
      DeleteAllAbsent(s[1..], p);
    }
  }

  /** `Split` leaves a text without `p` in one piece. */
  lemma {:induction false} SplitAbsent(s: string, p: string)
    requires p != []
    requires !Contains(s, p)
    ensures Split(s, p) == [s]
    decreases |s|
  {
    if |s| >= |p| {
      assert s[0..|p|] == s[..|p|];
      assert !OccursAt(s, p, 0);
      assert !Contains(s[1..], p) by {
        if Contains(s[1..], p) {
          var k :| OccursAt(s[1..], p, k);
          OccursAtTail(s, p, k + 1);
        }
      }
      SplitAbsent(s[1..], p);
      assert [s[0]] + s[1..] == s;
    }
  }

  // ---------------------------------------------------------------------
  // Leftmost first: where the scan cuts
  // ---------------------------------------------------------------------

  /** `i` is the position of the first occurrence of `p` in `s`. */
  predicate FirstAt(s: string, p: string, i: int)
  {
    OccursAt(s, p, i) && forall k :: 0 <= k < i ==> !OccursAt(s, p, k)
  }

  /** An occurrence at `k > 0` is the occurrence at `k - 1` of the tail. */
  lemma OccursAtTail(s: string, p: string, k: int)
    requires 0 < k && s != []
    ensures OccursAt(s, p, k) <==> OccursAt(s[1..], p, k - 1)
  {
    if k <= |s| - |p| {
      assert s[1..][k - 1..k - 1 + |p|] == s[k..k + |p|];
    }
  }

  /** Every text that contains `p` has a first occurrence of it. */
  lemma {:induction false} FirstOccurrence(s: string, p: string, k: int)
    requires OccursAt(s, p, k)
    ensures exists i :: 0 <= i <= k && FirstAt(s, p, i)
    decreases k
  {
    if !FirstAt(s, p, k) {
      var j :| 0 <= j < k && OccursAt(s, p, j);
      FirstOccurrence(s, p, j);
    }
  }

  /** No occurrence of `p` starts inside the first piece of a split. */
  lemma {:induction false} SplitHeadFirst(s: string, p: string)
    requires p != []
    ensures forall k :: 0 <= k < |Split(s, p)[0]| ==> !OccursAt(s, p, k)
    decreases |s|
  {
    if |s| >= |p| && s[..|p|] != p {
      var rest := Split(s[1..], p);
      SplitHeadFirst(s[1..], p);
      assert Split(s, p)[0] == [s[0]] + rest[0];
      assert s[0..|p|] == s[..|p|];
      forall k | 0 <= k < |Split(s, p)[0]|
        ensures !OccursAt(s, p, k)
      {
        if k > 0 {
          OccursAtTail(s, p, k);
        }
      }
    }
  }

  /** Before the first occurrence the text does not start with `p`, and
      the tail has its first occurrence one place further left. */
  lemma FirstAtTail(s: string, p: string, i: int)
    requires p != [] && 0 < i && FirstAt(s, p, i)
    ensures |s| >= |p| && s[..|p|] != p
    ensures FirstAt(s[1..], p, i - 1)
  {
    assert !OccursAt(s, p, 0);
    assert s[0..|p|] == s[..|p|];
    forall k | 0 <= k < i - 1
      ensures !OccursAt(s[1..], p, k)
    {
      OccursAtTail(s, p, k + 1);
    }
    OccursAtTail(s, p, i);
  }

  /**
   `Split` cuts at the FIRST occurrence: the first piece is everything before
   it, and the split goes on right after it.
   */
  lemma {:induction false} SplitAtFirst(s: string, p: string, i: nat)
    requires p != [] && FirstAt(s, p, i)
    ensures Split(s, p) == [s[..i]] + Split(s[i + |p|..], p)
    decreases i
  {
    if i > 0 {
      var t := s[1..];
      FirstAtTail(s, p, i);
      SplitAtFirst(t, p, i - 1);
      var rest := Split(t, p);
      assert t[i - 1 + |p|..] == s[i + |p|..];
      assert Split(s, p) == [[s[0]] + rest[0]] + rest[1..];
      assert [s[0]] + t[..i - 1] == s[..i];
    } else {
      assert s[0..|p|] == s[..|p|];
    }
  }

  /** A text that does not start with `p` keeps its first character. */
  lemma DeleteAllNoMatch(s: string, p: string)
    requires p != [] && s != []
    requires !(|s| >= |p| && s[..|p|] == p)
    ensures DeleteAll(s, p) == [s[0]] + DeleteAll(s[1..], p)
  {
    if |s| < |p| {
      assert s == [s[0]] + s[1..];
    }
  }

  /**
   `DeleteAll` removes the FIRST occurrence, keeps what precedes it and goes
   on right after it, so of two overlapping occurrences the left one goes.
   */
  lemma DeleteAllAtFirst(s: string, p: string, i: nat)
    requires p != [] && FirstAt(s, p, i)
    ensures DeleteAll(s, p) == s[..i] + DeleteAll(s[i + |p|..], p)
  {
    var rest := s[i + |p|..];
    DeleteAllIsSplitJoin(s, p);
    DeleteAllIsSplitJoin(rest, p);
    SplitAtFirst(s, p, i);
    ConcatCons(s[..i], Split(rest, p));
  }

  /**
   The leftmost-first rule determines the deletion: a function on strings
   that leaves every text without `p` alone and, on every other text, keeps
   what precedes the first occurrence and goes on after it, is `DeleteAll`.
   */
  lemma {:induction false} DeleteAllUnique(f: string -> string, p: string, s: string)
    requires p != []
    requires forall t :: !Contains(t, p) ==> f(t) == t
    requires forall t, i :: FirstAt(t, p, i) ==> f(t) == t[..i] + f(t[i + |p|..])
    ensures f(s) == DeleteAll(s, p)
    decreases |s|
  {
    if Contains(s, p) {
      var k :| OccursAt(s, p, k);
      FirstOccurrence(s, p, k);
      var i :| 0 <= i <= k && FirstAt(s, p, i);
      DeleteAllUnique(f, p, s[i + |p|..]);
      DeleteAllAtFirst(s, p, i);
    } else {
      DeleteAllAbsent(s, p);
    }
  }

  /**
   No occurrence of `p` can reach across a character that is not in `p`, so
   the deletion works on the two sides of such a character apart.
   */
  lemma {:induction false} DeleteAllBreak(a: string, r: string, p: string)
    requires p != [] && r != [] && r[0] !in p
    ensures DeleteAll(a + r, p) == DeleteAll(a, p) + DeleteAll(r, p)
    decreases |a|
  {
    if a == [] {
      assert a + r == r;
    } else if |a| >= |p| && a[..|p|] == p {
      DeleteAllBreak(a[|p|..], r, p);
      BreakAtMatch(a, r, p);
    } else {
      DeleteAllBreak(a[1..], r, p);
      BreakAtOther(a, r, p);
    }
  }

  /** The step of `DeleteAllBreak` when `a` starts with `p`. */
  lemma BreakAtMatch(a: string, r: string, p: string)
    requires p != [] && |a| >= |p| && a[..|p|] == p
    requires DeleteAll(a[|p|..] + r, p) == DeleteAll(a[|p|..], p) + DeleteAll(r, p)
    ensures DeleteAll(a + r, p) == DeleteAll(a, p) + DeleteAll(r, p)
  {
    Seqs.SliceLeft(a, r, |p|);
  }

  /** The step of `DeleteAllBreak` when `a` does not start with `p`. */
  lemma BreakAtOther(a: string, r: string, p: string)
    requires p != [] && r != [] && r[0] !in p && a != []
    requires !(|a| >= |p| && a[..|p|] == p)
    requires DeleteAll(a[1..] + r, p) == DeleteAll(a[1..], p) + DeleteAll(r, p)
    ensures DeleteAll(a + r, p) == DeleteAll(a, p) + DeleteAll(r, p)
  {
    var s := a + r;
    var x, y := DeleteAll(a[1..], p), DeleteAll(r, p);
    Seqs.SliceLeft(a, r, 1);
    BreakHead(a, r, p);
    DeleteAllNoMatch(a, p);
    Seqs.Assoc([a[0]], x, y);
  }

  /** `a + r` keeps its first character when `a` does not start with `p`. */
  lemma BreakHead(a: string, r: string, p: string)
    requires p != [] && r != [] && r[0] !in p && a != []
    requires !(|a| >= |p| && a[..|p|] == p)
    ensures DeleteAll(a + r, p) == [a[0]] + DeleteAll((a + r)[1..], p)
  {
    var s := a + r;
    if |a| >= |p| {
      Seqs.SliceLeft(a, r, |p|);
      DeleteAllNoMatch(s, p);
    } else if |s| >= |p| {
      assert s[..|p|][|a|] == r[0] && p[|a|] in p;
      DeleteAllNoMatch(s, p);
    } else {
      assert s == [s[0]] + s[1..];
    }
  }

  /**
   A block `q` none of whose characters occurs in `p` passes through the
   deletion unchanged, and the two sides around it are treated apart.
   */
  lemma DeleteAllAround(a: string, q: string, b: string, p: string)
    requires p != [] && q != []
    requires forall k :: 0 <= k < |q| ==> q[k] !in p
    ensures DeleteAll(a + q + b, p) == DeleteAll(a, p) + q + DeleteAll(b, p)
  {
    var r := q + b;
    assert r[0] == q[0];
    DeleteAllBreak(a, r, p);
    assert p[0] in p;
    DeleteAllPrefix(q, b, p);
    Seqs.Assoc(a, q, b);
    Seqs.Assoc(DeleteAll(a, p), q, DeleteAll(b, p));
  }

  /**
   Deletion only removes characters of `p`: a character that does not occur
   in `p` is in the result exactly when it is in the input, and the result
   has no character the input lacks.
   */
  lemma {:induction false} DeleteAllChars(s: string, p: string, c: char)
    requires p != []
    ensures c in DeleteAll(s, p) ==> c in s
    ensures c !in p ==> (c in DeleteAll(s, p) <==> c in s)
    decreases |s|
  {
    if |s| < |p| {
    } else if s[..|p|] == p {
      DeleteAllChars(s[|p|..], p, c);
      assert s == s[..|p|] + s[|p|..];
    } else {
      DeleteAllChars(s[1..], p, c);
      assert s == [s[0]] + s[1..];
    }
  }

  /**
   Each deletion shortens the text by `|p|`: the result is `|p|` times the
   number of separators in the split shorter than the input.
   */
  lemma {:induction false} DeleteAllLength(s: string, p: string)
    requires p != []
    ensures |DeleteAll(s, p)| == |s| - (|Split(s, p)| - 1) * |p|
    decreases |s|
  {
    if |s| < |p| {
    } else if s[..|p|] == p {
      DeleteAllLength(s[|p|..], p);
      MulPred(|Split(s, p)| - 1, |p|);
    } else {
      DeleteAllLength(s[1..], p);
    }
  }
}
