/** JavaScript's `String.prototype.split` with a string separator, and its
    inverse `Array.prototype.join`. The middleware splits twice: the header on
    "Basic " and the decoded credentials on ":". */
module Text {

  /** `sep` occurs in `s` starting at index `i`. */
  predicate OccursAt(s: string, sep: string, i: nat) {
    i + |sep| <= |s| && s[i..i + |sep|] == sep
  }

  /** `i` is the leftmost occurrence of `sep` in `s`. */
  predicate FirstOccurrence(s: string, sep: string, i: nat) {
    OccursAt(s, sep, i) && forall j: nat :: j < i ==> !OccursAt(s, sep, j)
  }

  /** `sep` does not occur anywhere in `s`. */
  predicate Free(s: string, sep: string) {
    forall i: nat :: i < |s| ==> !OccursAt(s, sep, i)
  }

  /** `s.split(sep)`: the pieces between the non-overlapping occurrences of
      `sep`, scanning from the left. There is always at least one piece. */
  function Split(s: string, sep: string): (pieces: seq<string>)
    requires sep != []
    ensures |pieces| >= 1
    decreases |s|
  {
    if |s| < |sep| then [s]
    else if s[..|sep|] == sep then [[]] + Split(s[|sep|..], sep)
    else
      var rest := Split(s[1..], sep);
      [[s[0]] + rest[0]] + rest[1..]
  }

  /** `pieces.join(sep)` */
  function Join(pieces: seq<string>, sep: string): string
    decreases |pieces|
  {
    if pieces == [] then []
    else if |pieces| == 1 then pieces[0]
    else pieces[0] + sep + Join(pieces[1..], sep)
  }

  /** Joining the pieces with the separator gives back the text: no
      character is lost by a split. */
  lemma {:induction false} JoinSplit(s: string, sep: string)
    requires sep != []
    ensures Join(Split(s, sep), sep) == s
    decreases |s|
  {
    if |s| < |sep| {
    } else if s[..|sep|] == sep {
      var rest := Split(s[|sep|..], sep);
      JoinSplit(s[|sep|..], sep);
      assert Split(s, sep) == [[]] + rest;
      assert ([[]] + rest)[1..] == rest;
      assert s == sep + s[|sep|..];
    } else {
      var rest := Split(s[1..], sep);
      JoinSplit(s[1..], sep);
      var pieces := [[s[0]] + rest[0]] + rest[1..];
      assert Split(s, sep) == pieces;
      if |rest| == 1 {
        assert s == [s[0]] + s[1..];
      } else {
        assert pieces[1..] == rest[1..];
        assert Join(rest, sep) == rest[0] + sep + Join(rest[1..], sep);
        assert s == [s[0]] + s[1..];
      }
    }
  }

  /** Dropping the first character shifts every occurrence one place left. */
  lemma OccursShift(s: string, sep: string, j: nat)
    requires |s| >= 1
    ensures OccursAt(s[1..], sep, j) <==> OccursAt(s, sep, j + 1)
  {
    if j + 1 + |sep| <= |s| {
      assert s[1..][j..j + |sep|] == s[j + 1..j + 1 + |sep|];
    }
  }

  /** Dropping a prefix of length `n` shifts every occurrence `n` places left. */
  lemma OccursDrop(s: string, sep: string, n: nat, k: nat)
    requires n <= |s|
    ensures OccursAt(s[n..], sep, k) <==> OccursAt(s, sep, n + k)
  {
    if n + k + |sep| <= |s| {
      assert s[n..][k..k + |sep|] == s[n + k..n + k + |sep|];
    }
  }

  /** The first piece ends at the leftmost occurrence of the separator and
      the split carries on after it. */
  lemma {:induction false} SplitAtFirst(s: string, sep: string, i: nat)
    requires sep != []
    requires FirstOccurrence(s, sep, i)
    ensures Split(s, sep) == [s[..i]] + Split(s[i + |sep|..], sep)
    decreases i
  {
    if i == 0 {
      assert s[..|sep|] == sep;
    } else {
      assert !OccursAt(s, sep, 0);
      assert s[..|sep|] != sep;
      var t := s[1..];
      var rest := Split(t, sep);
      assert Split(s, sep) == [[s[0]] + rest[0]] + rest[1..];
      forall j: nat | j < i - 1
        ensures !OccursAt(t, sep, j)
      {
        OccursShift(s, sep, j);
      }
      OccursShift(s, sep, i - 1);
      SplitAtFirst(t, sep, i - 1);
      assert rest[0] == t[..i - 1];
      assert t[i - 1 + |sep|..] == s[i + |sep|..];
      assert rest[1..] == Split(s[i + |sep|..], sep);
      assert [s[0]] + t[..i - 1] == s[..i];
    }
  }

  /** A text in which the separator never occurs is one single piece. */
  lemma {:induction false} SplitFree(s: string, sep: string)
    requires sep != []
    requires Free(s, sep)
    ensures Split(s, sep) == [s]
    decreases |s|
  {
    if |s| >= |sep| {
      assert !OccursAt(s, sep, 0);
      var t := s[1..];
      forall j: nat | j < |t|
        ensures !OccursAt(t, sep, j)
      {
        OccursShift(s, sep, j);
      }
      SplitFree(t, sep);
      assert [s[0]] + t == s;
    }
  }

  /** The first piece runs up to the first occurrence, or to the end. */
  lemma SplitHead(s: string, sep: string, j: nat)
    requires sep != [] && j <= |s|
    requires forall k: nat :: k < j ==> !OccursAt(s, sep, k)
    requires j == |s| || OccursAt(s, sep, j)
    ensures Split(s, sep)[0] == s[..j]
  {
    if j == |s| {
      SplitFree(s, sep);
      assert s[..j] == s;
    } else {
      SplitAtFirst(s, sep, j);
    }
  }

  /** Every occurrence of `sep` has a leftmost one at or before it. */
  lemma {:induction false} LeftmostOccurrence(s: string, sep: string, i: nat)
    requires OccursAt(s, sep, i)
    ensures exists k: nat :: k <= i && FirstOccurrence(s, sep, k)
    decreases i
  {
    if forall j: nat :: j < i ==> !OccursAt(s, sep, j) {
      assert FirstOccurrence(s, sep, i);
    } else {
      var j: nat :| j < i && OccursAt(s, sep, j);
      LeftmostOccurrence(s, sep, j);
    }
  }

  /** A text splits into more than one piece exactly when the separator
      occurs in it. */
  lemma SplitManyIffOccurs(s: string, sep: string)
    requires sep != []
    ensures |Split(s, sep)| > 1 <==> !Free(s, sep)
  {
    if Free(s, sep) {
      SplitFree(s, sep);
    } else {
      var i: nat :| OccursAt(s, sep, i);
      LeftmostOccurrence(s, sep, i);
      var k: nat :| k <= i && FirstOccurrence(s, sep, k);
      SplitAtFirst(s, sep, k);
    }
  }

  /** A character that is absent from a text cannot occur in it as a
      one-character separator. */
  lemma CharFree(s: string, c: char)
    requires c !in s
    ensures Free(s, [c])
  {
    forall i: nat | i < |s|
      ensures !OccursAt(s, [c], i)
    {
      assert s[i..i + 1] == [s[i]];
    }
  }

  /** Splitting on a single character leaves that character in no piece. */
  lemma {:induction false} SplitOnCharPieces(s: string, c: char)
    ensures forall k :: 0 <= k < |Split(s, [c])| ==> c !in Split(s, [c])[k]
    decreases |s|
  {
    if |s| >= 1 {
      SplitOnCharPieces(s[|[c]|..], c);
      if s[..1] != [c] {
        var rest := Split(s[1..], [c]);
        assert s[0] == s[..1][0];
        assert c !in [s[0]] + rest[0];
      }
    }
  }

  /** Splitting on a character undoes joining pieces that do not contain
      it: the two functions are inverse on such pieces. */
  lemma {:induction false} SplitJoinOnChar(pieces: seq<string>, c: char)
    requires |pieces| >= 1
    requires forall k :: 0 <= k < |pieces| ==> c !in pieces[k]
    ensures Split(Join(pieces, [c]), [c]) == pieces
    decreases |pieces|
  {
    if |pieces| == 1 {
      CharFree(pieces[0], c);
      SplitFree(pieces[0], [c]);
    } else {
      var s := Join(pieces, [c]);
      var head := pieces[0];
      assert s == head + [c] + Join(pieces[1..], [c]);
      assert s[|head|..|head| + 1] == [c];
      forall j: nat | j < |head|
        ensures !OccursAt(s, [c], j)
      {
        assert s[j] == head[j];
        assert s[j..j + 1] == [s[j]];
      }
      SplitAtFirst(s, [c], |head|);
      assert s[..|head|] == head;
      assert s[|head| + 1..] == Join(pieces[1..], [c]);
      SplitJoinOnChar(pieces[1..], c);
    }
  }
}
