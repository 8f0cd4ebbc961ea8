/** The JavaScript String operations the crawler is built on: `indexOf(sep) > -1`,
    `split(sep)[0]`, `split(sep)[1]`, and the ASCII case folding behind the `i`
    flag of its regular expressions. Every separator in the crawler is a
    non-empty literal, so the empty-separator behaviour of `split` is not needed. */
module JsStrings {
  import opened Optional

  /** `sep` occurs in `s` starting at index `i`. */
  predicate OccursAt(s: string, sep: string, i: int)
  {
    0 <= i && i + |sep| <= |s| && s[i..i + |sep|] == sep
  }

  /** `a` is a contiguous piece of `b`. */
  ghost predicate IsInfix(a: string, b: string)
  {
    exists i :: OccursAt(b, a, i)
  }

  lemma OccursAtTail(s: string, sep: string)
    requires |s| > 0
    ensures forall i :: 1 <= i ==> (OccursAt(s, sep, i) <==> OccursAt(s[1..], sep, i - 1))
  {
    forall i | 1 <= i
      ensures OccursAt(s, sep, i) <==> OccursAt(s[1..], sep, i - 1)
    {
      if i + |sep| <= |s| {
        assert s[1..][i - 1..i - 1 + |sep|] == s[i..i + |sep|];
      }
    }
  }

  /** An occurrence inside a prefix is an occurrence in the whole string. */
  lemma OccursAtPrefix(p: string, s: string, sep: string, i: int)
    requires p <= s
    requires OccursAt(p, sep, i)
    ensures OccursAt(s, sep, i)
  {
    assert s[i..i + |sep|] == p[i..i + |sep|];
  }

  /** `sep` occurs at `i` in the suffix `s[k..]` iff it occurs at `k + i` in `s`. */
  lemma OccursAtSuffix(s: string, k: nat, sep: string, i: int)
    requires k <= |s|
    ensures OccursAt(s[k..], sep, i) <==> 0 <= i && OccursAt(s, sep, k + i)
  {
    if 0 <= i && k + i + |sep| <= |s| {
      assert s[k..][i..i + |sep|] == s[k + i..k + i + |sep|];
    }
  }

  /** A one-character separator occurs exactly where that character is. */
  lemma OccursAtChar(s: string, c: char, i: int)
    ensures OccursAt(s, [c], i) <==> 0 <= i < |s| && s[i] == c
  {
    if 0 <= i < |s| {
      assert s[i..i + 1] == [s[i]];
    }
  }

  lemma NoOccurrenceOfChar(s: string, c: char)
    requires forall i :: !OccursAt(s, [c], i)
    ensures c !in s
  {
    if c in s {
      var i :| 0 <= i < |s| && s[i] == c;
      OccursAtChar(s, c, i);
    }
  }

  /** Infix is transitive: a piece of a piece of `c` is a piece of `c`. */
  lemma InfixTransitive(a: string, b: string, c: string)
    requires IsInfix(a, b) && IsInfix(b, c)
    ensures IsInfix(a, c)
  {
    var i :| OccursAt(b, a, i);
    var j :| OccursAt(c, b, j);
    assert c[j..j + |b|] == b;
    forall k | 0 <= k < |a|
      ensures c[j + i..j + i + |a|][k] == a[k]
    {
      assert c[j + i + k] == c[j..j + |b|][i + k] == b[i + k] == b[i..i + |a|][k];
    }
    assert c[j + i..j + i + |a|] == a;
    assert OccursAt(c, a, j + i);
  }

  /** `s.indexOf(sep)`, with `None` for JavaScript's -1: the first index at
      which `sep` occurs. */
  function IndexOf(s: string, sep: string): (r: Option<nat>)
    requires |sep| > 0
    ensures r.Some? ==> OccursAt(s, sep, r.value)
    ensures r.Some? ==> forall i :: 0 <= i < r.value ==> !OccursAt(s, sep, i)
    ensures r.None? ==> forall i :: !OccursAt(s, sep, i)
    decreases |s|
  {
    if |s| < |sep| then None
    else if s[..|sep|] == sep then Some(0)
    else
      OccursAtTail(s, sep);
      match IndexOf(s[1..], sep)
      case None => None
      case Some(k) => Some(k + 1)
  }

  /** `s.indexOf(sep) > -1`. */
  predicate Contains(s: string, sep: string)
    requires |sep| > 0
  {
    IndexOf(s, sep).Some?
  }

  lemma ContainsWitness(s: string, sep: string, i: int)
    requires |sep| > 0 && OccursAt(s, sep, i)
    ensures Contains(s, sep)
  {
  }

  /** `s.split(sep)[0]`: the text before the first `sep`, or all of `s`. It is
      the longest prefix of `s` in which `sep` does not occur. */
  function SplitFirst(s: string, sep: string): (r: string)
    requires |sep| > 0
    ensures r <= s
    ensures forall i :: !OccursAt(r, sep, i)
    ensures |r| < |s| ==> OccursAt(s, sep, |r|)
    ensures forall i :: 0 <= i < |r| ==> !OccursAt(s, sep, i)
  {
    match IndexOf(s, sep)
    case None => s
    case Some(k) =>
      var r := s[..k];
      assert forall i :: OccursAt(r, sep, i) ==> OccursAt(s, sep, i) by {
        forall i | OccursAt(r, sep, i) ensures OccursAt(s, sep, i) {
          OccursAtPrefix(r, s, sep, i);
        }
      }
      r
  }

  /** No `sep` starts at an index in `[lo, hi)` of `s`. */
  ghost predicate NoneStartsIn(s: string, sep: string, lo: int, hi: int)
  {
    forall i :: lo <= i < hi ==> !OccursAt(s, sep, i)
  }

  /** `v` is the `sep`-delimited piece of `s` that starts at `start`: it
      occurs there, no `sep` starts inside it, and it ends at the end of `s`
      or where a `sep` starts. */
  ghost predicate PieceAt(s: string, sep: string, start: int, v: string)
  {
    && OccursAt(s, v, start)
    && NoneStartsIn(s, sep, start, start + |v|)
    && (start + |v| == |s| || OccursAt(s, sep, start + |v|))
  }

  /** `s.split(sep)[1]`: the text between the first and the second `sep` (or
      the end of `s`), and `None` -- JavaScript's `undefined` -- when `sep`
      does not occur in `s`. */
  function SplitSecond(s: string, sep: string): (r: Option<string>)
    requires |sep| > 0
    ensures r.None? <==> !Contains(s, sep)
    ensures r.Some? ==> PieceAt(s, sep, IndexOf(s, sep).value + |sep|, r.value)
    ensures r.Some? ==> IsInfix(r.value, s)
    ensures r.Some? ==> forall i :: !OccursAt(r.value, sep, i)
  {
    if !Contains(s, sep) then None
    else
      var k := IndexOf(s, sep).value;
      PieceAfter(s, sep, k);
      Some(SplitFirst(s[k + |sep|..], sep))
  }

  /** The text from just after an occurrence at `k` up to the next `sep`. */
  lemma PieceAfter(s: string, sep: string, k: nat)
    requires |sep| > 0 && OccursAt(s, sep, k)
    ensures PieceAt(s, sep, k + |sep|, SplitFirst(s[k + |sep|..], sep))
    ensures IsInfix(SplitFirst(s[k + |sep|..], sep), s)
  {
    var piece := SplitFirst(s[k + |sep|..], sep);
    PieceOfSuffix(s, sep, k + |sep|, piece);
    assert OccursAt(s, piece, k + |sep|);
  }

  /** A prefix of the suffix `s[start..]` that holds no `sep` and ends at a
      `sep` or at the end is a `sep`-delimited piece of `s`. */
  lemma PieceOfSuffix(s: string, sep: string, start: nat, piece: string)
    requires start <= |s| && piece <= s[start..]
    requires forall i :: 0 <= i < |piece| ==> !OccursAt(s[start..], sep, i)
    requires |piece| < |s[start..]| ==> OccursAt(s[start..], sep, |piece|)
    ensures PieceAt(s, sep, start, piece)
  {
    assert OccursAt(s, piece, start) by {
      assert s[start..start + |piece|] == piece;
    }
    assert start + |piece| == |s| || OccursAt(s, sep, start + |piece|) by {
      if |piece| < |s[start..]| {
        OccursAtSuffix(s, start, sep, |piece|);
      }
    }
    NoEarlierOccurrence(s, start, sep, |piece|);
  }

  /** No `sep` starts in the first `n` positions of `s[m..]` when none starts
      in the first `n` positions of the suffix `s[m..]`. */
  lemma NoEarlierOccurrence(s: string, m: nat, sep: string, n: nat)
    requires m <= |s|
    requires forall i :: 0 <= i < n ==> !OccursAt(s[m..], sep, i)
    ensures NoneStartsIn(s, sep, m, m + n)
  {
    forall i | m <= i < m + n ensures !OccursAt(s, sep, i) {
      OccursAtSuffix(s, m, sep, i - m);
    }
  }

  /** `r` is the text that starts just after the first `sep` of `s`, holds
      no `sep`, and ends at the end of `s`, at a `sep` or at a `stop`. */
  ghost predicate PieceUpTo(s: string, sep: string, stop: string, r: string)
    requires |sep| > 0
  {
    && Contains(s, sep)
    && var start := IndexOf(s, sep).value + |sep|;
       && OccursAt(s, r, start)
       && NoneStartsIn(s, sep, start, start + |r|)
       && (start + |r| == |s| || OccursAt(s, sep, start + |r|) || OccursAt(s, stop, start + |r|))
  }

  /** Cutting the piece after the first `sep` at its first `stop` -- as in
      `s.split(sep)[1].split(stop)[0]` -- gives such a text. */
  lemma PieceUpToOfPiece(s: string, sep: string, stop: string, after: string, r: string)
    requires |sep| > 0 && Contains(s, sep)
    requires PieceAt(s, sep, IndexOf(s, sep).value + |sep|, after)
    requires r <= after && (|r| < |after| ==> OccursAt(after, stop, |r|))
    ensures PieceUpTo(s, sep, stop, r)
  {
    PieceOfPiece(s, sep, stop, IndexOf(s, sep).value + |sep|, after, r);
  }

  /** A prefix `r` of the piece `after` of `s`, cut at a `stop`, keeps the
      piece's start and ends at the piece's end or at that `stop`. */
  lemma PieceOfPiece(s: string, sep: string, stop: string, start: nat, after: string, r: string)
    requires PieceAt(s, sep, start, after)
    requires r <= after
    requires |r| < |after| ==> OccursAt(after, stop, |r|)
    ensures OccursAt(s, r, start)
    ensures NoneStartsIn(s, sep, start, start + |r|)
    ensures start + |r| == |s| || OccursAt(s, sep, start + |r|) || OccursAt(s, stop, start + |r|)
  {
    assert s[start..start + |r|] == after[..|r|] == r;
    if |r| < |after| {
      assert after <= s[start..];
      OccursAtPrefix(after, s[start..], stop, |r|);
      OccursAtSuffix(s, start, stop, |r|);
    }
  }

  /** No `sep` starts inside an occurrence of a text lacking `sep`'s first
      character. */
  lemma NoOccurrenceInside(s: string, v: string, start: int, sep: string)
    requires |sep| > 0 && OccursAt(s, v, start) && sep[0] !in v
    ensures NoneStartsIn(s, sep, start, start + |v|)
  {
    forall i | start <= i < start + |v| && OccursAt(s, sep, i) ensures false {
      OccursAtHead(s, sep, i);
    }
  }

  /** The three facts `SplitSecond` promises pin its value down: a text that
      starts right after the first `sep`, holds no `sep` starting inside it,
      and ends at the end of `s` or at a `sep` is that value. */
  lemma SplitSecondIs(s: string, sep: string, start: nat, v: string)
    requires |sep| > 0 && Contains(s, sep)
    requires start == IndexOf(s, sep).value + |sep|
    requires OccursAt(s, v, start)
    requires NoneStartsIn(s, sep, start, start + |v|)
    requires start + |v| == |s| || OccursAt(s, sep, start + |v|)
    ensures SplitSecond(s, sep) == Some(v)
  {
    SamePiece(s, sep, start, SplitSecond(s, sep).value, v);
  }

  /** For a text `v` lacking `sep`'s first character, `s.split(sep)[1]` is
      `v` exactly when `v` follows the first `sep` and is followed by the end
      of `s` or another `sep`. */
  lemma SplitSecondIsText(s: string, sep: string, start: nat, v: string)
    requires |sep| > 0 && Contains(s, sep) && sep[0] !in v
    requires start == IndexOf(s, sep).value + |sep|
    ensures SplitSecond(s, sep) == Some(v)
            <==> OccursAt(s, v, start) && (start + |v| == |s| || OccursAt(s, sep, start + |v|))
  {
    var fits := OccursAt(s, v, start) && (start + |v| == |s| || OccursAt(s, sep, start + |v|));
    assert SplitSecond(s, sep) == Some(v) ==> fits by {
      if SplitSecond(s, sep) == Some(v) {
        assert PieceAt(s, sep, start, v);
      }
    }
    assert fits ==> SplitSecond(s, sep) == Some(v) by {
      if fits {
        NoOccurrenceInside(s, v, start, sep);
        SplitSecondIs(s, sep, start, v);
      }
    }
  }

  /** Two texts that both start at `start`, hold no `sep` and end at a `sep`
      or at the end of `s` are the same text. */
  lemma SamePiece(s: string, sep: string, start: nat, a: string, b: string)
    requires PieceAt(s, sep, start, a) && PieceAt(s, sep, start, b)
    ensures a == b
  {
    if |a| < |b| {
      assert false;
    } else if |b| < |a| {
      assert false;
    }
    assert a == s[start..start + |a|] == b;
  }

  /** A separator whose first character is absent from `s` does not occur in `s`. */
  lemma NoOccurrenceOfHead(s: string, sep: string)
    requires |sep| > 0 && sep[0] !in s
    ensures forall i :: !OccursAt(s, sep, i)
  {
  }

  /** An occurrence starts with the separator's first character. */
  lemma OccursAtHead(s: string, sep: string, i: int)
    requires |sep| > 0 && OccursAt(s, sep, i)
    ensures s[i] == sep[0]
  {
    assert s[i..i + |sep|][0] == s[i];
  }

  /** An occurrence ends with the separator's last character. */
  lemma OccursAtLast(s: string, sep: string, i: int)
    requires |sep| > 0 && OccursAt(s, sep, i)
    ensures s[i + |sep| - 1] == sep[|sep| - 1]
  {
    assert s[i..i + |sep|][|sep| - 1] == s[i + |sep| - 1];
  }

  /** `indexOf` returns the first occurrence. */
  lemma IndexOfIs(s: string, sep: string, k: nat)
    requires |sep| > 0 && OccursAt(s, sep, k)
    requires forall i :: 0 <= i < k ==> !OccursAt(s, sep, i)
    ensures IndexOf(s, sep) == Some(k)
  {
  }

  /** `split(sep)[0]` of a string without `sep` is the whole string. */
  lemma SplitFirstWhole(s: string, sep: string)
    requires |sep| > 0 && forall i :: !OccursAt(s, sep, i)
    ensures SplitFirst(s, sep) == s
  {
  }

  /** `split(sep)[0]` stops at the first `sep`. */
  lemma SplitFirstBefore(a: string, b: string, sep: string)
    requires |sep| > 0
    requires forall i :: 0 <= i < |a| ==> !OccursAt(a + b, sep, i)
    requires OccursAt(a + b, sep, |a|)
    ensures SplitFirst(a + b, sep) == a
  {
    var r := SplitFirst(a + b, sep);
    assert |r| == |a|;
    assert r == (a + b)[..|a|];
  }

  /** `split(sep)[1]` of `a + sep + b`, where the first `sep` is the one after
      `a` and `b` holds no further `sep`, is `b`. */
  lemma SplitSecondAfter(a: string, sep: string, b: string)
    requires |sep| > 0
    requires forall i :: 0 <= i < |a| ==> !OccursAt(a + sep + b, sep, i)
    requires forall i :: !OccursAt(b, sep, i)
    ensures SplitSecond(a + sep + b, sep) == Some(b)
  {
    var s := a + sep + b;
    assert s[|a|..|a| + |sep|] == sep;
    IndexOfIs(s, sep, |a|);
    assert s[|a| + |sep|..] == b;
    SplitFirstWhole(b, sep);
  }

  /** ASCII lower-casing, which is what the `i` flag of a non-Unicode
      JavaScript regular expression amounts to for ASCII patterns. */
  function LowerChar(c: char): char
  {
    if 'A' <= c <= 'Z' then (c as int + 32) as char else c
  }

  function Lower(s: string): string
  {
    seq(|s|, i requires 0 <= i < |s| => LowerChar(s[i]))
  }

  lemma LowerKeepsLowerCase(s: string)
    requires forall k :: 0 <= k < |s| ==> !('A' <= s[k] <= 'Z')
    ensures Lower(s) == s
  {
  }

  /** `s` contains the lower-case `word`, ignoring ASCII case. */
  predicate ContainsCI(s: string, word: string)
    requires |word| > 0
  {
    Contains(Lower(s), word)
  }

  /** `s` starts with the lower-case `prefix`, ignoring ASCII case. */
  predicate StartsWithCI(s: string, prefix: string)
  {
    OccursAt(Lower(s), prefix, 0)
  }

}
