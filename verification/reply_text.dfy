/**
 Post-processing of a backend reply before it is shown: formatting
 artifacts are stripped with Python's `str.replace` semantics, and the
 result is cut into Telegram-sized messages.
 */
module ReplyText {
  import opened Types

  /** The LaTeX box opener the backend likes to emit: seven characters. */
  const BoxedOpen: string := "\\boxed{"
  const CloseBrace: string := "}"

  /** Telegram's limit on the length of one message. */
  const MaxMessageLength := 4096

  /** The pattern occurs in `s` starting at index `i`. */
  predicate OccursAt(s: string, pat: string, i: int) {
    0 <= i && i + |pat| <= |s| && s[i..i + |pat|] == pat
  }

  /**
   `s.replace(pat, "")`: scanning from the left, every occurrence of
   `pat` is deleted and scanning resumes after it, so occurrences never
   overlap.
   */
  function RemoveAll(s: string, pat: string): (r: string)
    requires |pat| > 0
    ensures |r| <= |s|
    decreases |s|
  {
    if |s| < |pat| then s
    else if s[..|pat|] == pat then RemoveAll(s[|pat|..], pat)
    else [s[0]] + RemoveAll(s[1..], pat)
  }

  /** Removal only deletes characters, it never adds any. */
  lemma {:induction false} RemoveAllOnlyDeletes(s: string, pat: string)
    requires |pat| > 0
    ensures multiset(RemoveAll(s, pat)) <= multiset(s)
    decreases |s|
  {
    if |s| >= |pat| {
      if s[..|pat|] == pat {
        RemoveAllOnlyDeletes(s[|pat|..], pat);
        assert s == s[..|pat|] + s[|pat|..];
      } else {
        RemoveAllOnlyDeletes(s[1..], pat);
        assert s == [s[0]] + s[1..];
      }
    }
  }

  /** Where the pattern does not occur, nothing is removed. */
  lemma {:induction false} RemoveAllAbsent(s: string, pat: string)
    requires |pat| > 0
    requires forall i :: 0 <= i < |s| ==> !OccursAt(s, pat, i)
    ensures RemoveAll(s, pat) == s
    decreases |s|
  {
    if |s| >= |pat| {
      assert !OccursAt(s, pat, 0);
      var rest := s[1..];
      forall i | 0 <= i < |rest|
        ensures !OccursAt(rest, pat, i)
      {
        assert !OccursAt(s, pat, i + 1);
        OccursAtTail(s, pat, i);
      }
      RemoveAllAbsent(rest, pat);
      assert s == [s[0]] + rest;
    }
  }

  /**
   The leftmost occurrence is the one removed: if `pat` first occurs
   right after `a`, the result keeps `a` intact and carries on with what
   follows that occurrence.
   */
  lemma {:induction false} RemoveAllLeftmost(a: string, pat: string, b: string)
    requires |pat| > 0
    requires forall i :: 0 <= i < |a| ==> !OccursAt(a + pat + b, pat, i)
    ensures RemoveAll(a + pat + b, pat) == a + RemoveAll(b, pat)
    decreases |a|
  {
    var s := a + pat + b;
    if a == [] {
      assert s == pat + b;
      assert s[..|pat|] == pat;
      assert s[|pat|..] == b;
    } else {
      assert !OccursAt(s, pat, 0);
      assert s[..|pat|] != pat;
      var a' := a[1..];
      var s' := a' + pat + b;
      assert s[1..] == s';
      assert RemoveAll(s, pat) == [s[0]] + RemoveAll(s', pat);
      forall i | 0 <= i < |a'|
        ensures !OccursAt(s', pat, i)
      {
        assert !OccursAt(s, pat, i + 1);
        OccursAtTail(s, pat, i);
      }
      RemoveAllLeftmost(a', pat, b);
      assert a == [a[0]] + a';
    }
  }

  /** An occurrence in `s[1..]` is one in `s`, one place further on. */
  lemma OccursAtTail(s: string, pat: string, i: nat)
    requires |s| > 0
    ensures OccursAt(s[1..], pat, i) <==> OccursAt(s, pat, i + 1)
  {
    if i + |pat| <= |s[1..]| {
      assert s[1..][i..i + |pat|] == s[i + 1..i + 1 + |pat|];
    }
  }

  /** Deleting a one-character pattern leaves no copy of that character. */
  lemma {:induction false} RemoveAllCharGone(s: string, c: char)
    ensures c !in RemoveAll(s, [c])
    decreases |s|
  {
    if |s| >= 1 {
      RemoveAllCharGone(s[1..], c);
      if s[..1] != [c] {
        assert s[0] != c;
      }
    }
  }

  /**
   The `.replace("\\boxed{", "").replace("}", "")` chain: the box opener
   first, then every closing brace.
   */
  function Clean(s: string): (r: string)
    ensures '}' !in r
    ensures |r| <= |s|
    ensures multiset(r) <= multiset(s)
  {
    var unboxed := RemoveAll(s, BoxedOpen);
    RemoveAllOnlyDeletes(s, BoxedOpen);
    RemoveAllOnlyDeletes(unboxed, CloseBrace);
    RemoveAllCharGone(unboxed, '}');
    RemoveAll(unboxed, CloseBrace)
  }

  /** Text with no box opener and no closing brace is shown unchanged. */
  lemma CleanPlainText(s: string)
    requires forall i :: 0 <= i < |s| ==> !OccursAt(s, BoxedOpen, i)
    requires '}' !in s
    ensures Clean(s) == s
  {
    RemoveAllAbsent(s, BoxedOpen);
    CharNeverOccurs(s, '}');
    RemoveAllAbsent(s, CloseBrace);
  }

  lemma CharNeverOccurs(s: string, c: char)
    requires c !in s
    ensures forall i :: 0 <= i < |s| ==> !OccursAt(s, [c], i)
  {
    forall i | 0 <= i < |s|
      ensures !OccursAt(s, [c], i)
    {
      assert s[i..i + 1] == [s[i]];
    }
  }

  /**
   Cleaning is not idempotent and can even produce a box opener: in
   `\b}oxed{` the brace removal joins `\b` and `oxed{` back together.
   */
  lemma CleanCanAssembleBoxedOpen(s: string)
    requires s == BoxedOpen[..2] + CloseBrace + BoxedOpen[2..]
    ensures Clean(s) == BoxedOpen
    ensures Clean(Clean(s)) == []
  {
    SampleHasNoBoxedOpen(s);
    SampleLosesBrace(s);
    RemoveAllLeftmost([], BoxedOpen, []);
    assert [] + BoxedOpen + [] == BoxedOpen;
  }

  lemma SampleHasNoBoxedOpen(s: string)
    requires s == BoxedOpen[..2] + CloseBrace + BoxedOpen[2..]
    ensures RemoveAll(s, BoxedOpen) == s
  {
    assert |s| == 8 && s[1] == 'b' && s[2] == '}';
    assert !OccursAt(s, BoxedOpen, 0) by { assert s[..7][2] != BoxedOpen[2]; }
    assert !OccursAt(s, BoxedOpen, 1) by { assert s[1..8][0] != BoxedOpen[0]; }
    RemoveAllAbsent(s, BoxedOpen);
  }

  lemma SampleLosesBrace(s: string)
    requires s == BoxedOpen[..2] + CloseBrace + BoxedOpen[2..]
    ensures RemoveAll(s, CloseBrace) == BoxedOpen
  {
    assert s[0] == '\\' && s[1] == 'b';
    assert !OccursAt(s, CloseBrace, 0) by { assert s[0..1][0] != '}'; }
    assert !OccursAt(s, CloseBrace, 1) by { assert s[1..2][0] != '}'; }
    RemoveAllLeftmost(BoxedOpen[..2], CloseBrace, BoxedOpen[2..]);
    assert '}' !in BoxedOpen[2..];
    CharNeverOccurs(BoxedOpen[2..], '}');
    RemoveAllAbsent(BoxedOpen[2..], CloseBrace);
    assert BoxedOpen[..2] + BoxedOpen[2..] == BoxedOpen;
  }

  /** The pieces joined back together. */
  function Concat(pieces: seq<string>): string {
    if pieces == [] then [] else pieces[0] + Concat(pieces[1..])
  }

  /**
   The pieces sent for one reply: consecutive, non-empty, at most `n`
   long, all but the last exactly `n` long, joining back to the text.
   Empty text gives no pieces at all.
   */
  function Chunks(s: string, n: nat): (pieces: seq<string>)
    requires n > 0
    ensures Concat(pieces) == s
    ensures forall k :: 0 <= k < |pieces| ==> 0 < |pieces[k]| <= n
    ensures forall k :: 0 <= k < |pieces| - 1 ==> |pieces[k]| == n
    ensures pieces == [] <==> s == []
    decreases |s|
  {
    if |s| == 0 then []
    else if |s| <= n then [s]
    else [s[..n]] + Chunks(s[n..], n)
  }

  function Min(a: int, b: int): int {
    if a <= b then a else b
  }

  lemma MulSign(d: int, n: int)
    requires n > 0
    ensures d >= 1 ==> d * n >= n
    ensures d <= -1 ==> d * n <= -n
  {
  }

  /** Integer division pinned down by its bounds. */
  lemma DivBetween(x: int, n: int, q: int)
    requires n > 0 && q * n <= x < q * n + n
    ensures x / n == q
  {
    var q' := x / n;
    assert (q' - q) * n == (x - q * n) - x % n;
    MulSign(q' - q, n);
  }

  /** Python's `range(0, len(s), n)` has `ceil(len(s) / n)` steps: one piece per step. */
  lemma {:induction false} ChunkCount(s: string, n: nat)
    requires n > 0
    ensures |Chunks(s, n)| == (|s| + n - 1) / n
    decreases |s|
  {
    if |s| == 0 {
      DivBetween(n - 1, n, 0);
    } else if |s| <= n {
      DivBetween(|s| + n - 1, n, 1);
    } else {
      var rest := s[n..];
      ChunkCount(rest, n);
      assert |Chunks(s, n)| == |Chunks(rest, n)| + 1;
      DivShift(|rest| + n - 1, n);
      assert |s| + n - 1 == (|rest| + n - 1) + n;
    }
  }

  /** The slice `s[i:i+n]` that the loop sends at step `i = k * n`. */
  function RangeSlice(s: string, n: nat, k: nat): string
    requires k * n < |s|
  {
    s[k * n .. Min(k * n + n, |s|)]
  }

  /**
   The pieces are exactly the slices `s[i:i+n]` for `i` in
   `range(0, len(s), n)`: piece `k` starts at `k * n`.
   */
  lemma {:induction false} ChunksAreRangeSlices(s: string, n: nat)
    requires n > 0
    ensures forall k: nat :: k < |Chunks(s, n)| ==>
              k * n < |s| && Chunks(s, n)[k] == RangeSlice(s, n, k)
    decreases |s|
  {
    var pieces := Chunks(s, n);
    if |s| > n {
      var rest := s[n..];
      ChunksAreRangeSlices(rest, n);
      var tail := Chunks(rest, n);
      assert pieces == [s[..n]] + tail;
      forall k: nat | k < |pieces|
        ensures k * n < |s| && pieces[k] == RangeSlice(s, n, k)
      {
        if k > 0 {
          SliceOfTail(s, n, k, tail);
        }
      }
    }
  }

  lemma DivShift(x: int, n: int)
    requires n > 0
    ensures (x + n) / n == x / n + 1
  {
    var q := x / n;
    assert q * n <= x < q * n + n;
    assert (q + 1) * n == q * n + n;
    DivBetween(x + n, n, q + 1);
  }

  /** Piece `k` of `s` is piece `k - 1` of `s[n..]`, shifted by `n`. */
  lemma SliceOfTail(s: string, n: nat, k: nat, tail: seq<string>)
    requires 0 < n < |s| && 0 < k <= |tail|
    requires (k - 1) * n < |s| - n
    requires tail[k - 1] == RangeSlice(s[n..], n, k - 1)
    ensures k * n < |s| && tail[k - 1] == RangeSlice(s, n, k)
  {
    var j := k - 1;
    var rest := s[n..];
    assert k * n == j * n + n;
    assert Min(j * n + n, |rest|) + n == Min(k * n + n, |s|);
    assert rest[j * n .. Min(j * n + n, |rest|)] == s[k * n .. Min(k * n + n, |s|)];
  }

  /** The messages that display a raw backend reply: its cleaned text, one `reply_text` call per piece. */
  function Shown(reply: string): (ns: seq<Notice>)
    ensures forall k :: 0 <= k < |ns| ==> ns[k].Chunk? && '}' !in ns[k].text
    ensures forall k :: 0 <= k < |ns| ==> 0 < |ns[k].text| <= MaxMessageLength
  {
    var pieces := Chunks(Clean(reply), MaxMessageLength);
    forall k | 0 <= k < |pieces|
      ensures '}' !in pieces[k]
    {
      PieceOfConcat(pieces, k);
    }
    seq(|pieces|, k requires 0 <= k < |pieces| => Chunk(pieces[k]))
  }

  /**
   The display loop as written: one message per step `i = k * 4096` of
   `range(0, len(clean), 4096)`, holding `clean[i:i+4096]`.
   */
  lemma ShownIsRangeLoop(reply: string)
    ensures var clean := Clean(reply);
            && |Shown(reply)| == (|clean| + MaxMessageLength - 1) / MaxMessageLength
            && forall k: nat :: k < |Shown(reply)| ==>
                 k * MaxMessageLength < |clean| && Shown(reply)[k] == Chunk(RangeSlice(clean, MaxMessageLength, k))
  {
    ChunkCount(Clean(reply), MaxMessageLength);
    ChunksAreRangeSlices(Clean(reply), MaxMessageLength);
  }

  /** Every piece sits inside the joined text. */
  lemma {:induction false} PieceOfConcat(pieces: seq<string>, k: nat)
    requires k < |pieces|
    ensures forall c :: c in pieces[k] ==> c in Concat(pieces)
    decreases k
  {
    if k > 0 {
      PieceOfConcat(pieces[1..], k - 1);
    }
  }

  /** What the user sees once the backend has answered or failed. */
  function Reply(outcome: Outcome): seq<Notice> {
    match outcome
    case Failure => [ErrorNotice]
    case Success(reply) => Shown(reply)
  }
}
