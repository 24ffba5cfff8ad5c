/** Splitting a C string with `strtok(_, " \t\n\v\f\r")`: the tokens it
    returns, what they tell about the line, and `strtok` itself as a method
    over the command buffer. */
module Tokenizer {
  import opened Bytes

  /** Where the run of delimiters starting at `i` ends. */
  function SkipDelims(s: seq<byte>, i: nat): (j: nat)
    requires i <= |s|
    ensures i <= j <= |s|
    decreases |s| - i
  {
    if i == |s| || !IsDelim(s[i]) then i else SkipDelims(s, i + 1)
  }

  /** The run SkipDelims skips is all delimiters and cannot be extended. */
  lemma {:induction false} SkipDelimsSpec(s: seq<byte>, i: nat)
    requires i <= |s|
    ensures forall k :: i <= k < SkipDelims(s, i) ==> IsDelim(s[k])
    ensures SkipDelims(s, i) < |s| ==> !IsDelim(s[SkipDelims(s, i)])
    decreases |s| - i
  {
    if i < |s| && IsDelim(s[i]) {
      SkipDelimsSpec(s, i + 1);
    }
  }

  /** Where the run of non-delimiters starting at `i` ends. */
  function SkipWord(s: seq<byte>, i: nat): (j: nat)
    requires i <= |s|
    ensures i <= j <= |s|
    decreases |s| - i
  {
    if i == |s| || IsDelim(s[i]) then i else SkipWord(s, i + 1)
  }

  /** The run SkipWord skips has no delimiter and cannot be extended. */
  lemma {:induction false} SkipWordSpec(s: seq<byte>, i: nat)
    requires i <= |s|
    ensures forall k :: i <= k < SkipWord(s, i) ==> !IsDelim(s[k])
    ensures SkipWord(s, i) < |s| ==> IsDelim(s[SkipWord(s, i)])
    decreases |s| - i
  {
    if i < |s| && !IsDelim(s[i]) {
      SkipWordSpec(s, i + 1);
    }
  }

  lemma {:induction false} SkipDelimsIs(s: seq<byte>, i: nat, j: nat)
    requires i <= j <= |s|
    requires forall k :: i <= k < j ==> IsDelim(s[k])
    requires j < |s| ==> !IsDelim(s[j])
    ensures SkipDelims(s, i) == j
    decreases j - i
  {
    if i < j {
      SkipDelimsIs(s, i + 1, j);
    }
  }

  lemma {:induction false} SkipWordIs(s: seq<byte>, i: nat, j: nat)
    requires i <= j <= |s|
    requires forall k :: i <= k < j ==> !IsDelim(s[k])
    requires j < |s| ==> IsDelim(s[j])
    ensures SkipWord(s, i) == j
    decreases j - i
  {
    if i < j {
      SkipWordIs(s, i + 1, j);
    }
  }

  /** The tokens successive `strtok` calls return once strtok's saved
      position in the C string `s` is `i`. */
  function TokensFrom(s: seq<byte>, i: nat): seq<seq<byte>>
    requires i <= |s|
    decreases |s| - i
  {
    var a := SkipDelims(s, i);
    if a == |s| then []
    else
      var b := SkipWord(s, a);
      [s[a..b]] + TokensFrom(s, b)
  }

  /** All the tokens of the C string `s`. */
  function Tokens(s: seq<byte>): seq<seq<byte>>
  {
    TokensFrom(s, 0)
  }

  /** Tokens as strtok produces them: non-empty and free of delimiters. */
  predicate ValidWords(ws: seq<seq<byte>>)
  {
    forall i :: 0 <= i < |ws| ==> ws[i] != [] && NoDelim(ws[i])
  }

  lemma {:induction false} TokensFromValid(s: seq<byte>, i: nat)
    requires i <= |s|
    ensures ValidWords(TokensFrom(s, i))
    decreases |s| - i
  {
    var a := SkipDelims(s, i);
    SkipDelimsSpec(s, i);
    if a < |s| {
      var b := SkipWord(s, a);
      SkipWordSpec(s, a);
      TokensFromValid(s, b);
      var w := s[a..b];
      assert NoDelim(w) by {
        forall k | 0 <= k < |w| ensures !IsDelim(w[k]) {
          assert w[k] == s[a + k];
        }
      }
    }
  }

  lemma {:induction false} TokensFromNoNul(s: seq<byte>, i: nat)
    requires i <= |s| && NUL !in s
    ensures forall k :: 0 <= k < |TokensFrom(s, i)| ==> NUL !in TokensFrom(s, i)[k]
    decreases |s| - i
  {
    var a := SkipDelims(s, i);
    if a < |s| {
      var b := SkipWord(s, a);
      TokensFromNoNul(s, b);
      TokensFromStep(s, i, a, b, b);
      var w := s[a..b];
      assert NUL !in w by {
        forall k | 0 <= k < |w| ensures w[k] != NUL {
          assert w[k] == s[a + k];
        }
      }
    }
  }

  /** Tokens of a C string hold no NUL either. */
  lemma TokensNoNul(s: seq<byte>)
    requires NUL !in s
    ensures forall k :: 0 <= k < |Tokens(s)| ==> NUL !in Tokens(s)[k]
  {
    TokensFromNoNul(s, 0);
  }

  /** Every token is non-empty and contains no delimiter. */
  lemma TokensValid(s: seq<byte>)
    ensures ValidWords(Tokens(s))
  {
    TokensFromValid(s, 0);
  }

  /** The delimiter runs around and between the tokens found from `i` on. */
  function GapsFrom(s: seq<byte>, i: nat): seq<seq<byte>>
    requires i <= |s|
    decreases |s| - i
  {
    var a := SkipDelims(s, i);
    if a == |s| then [s[i..]]
    else
      var b := SkipWord(s, a);
      [s[i..a]] + GapsFrom(s, b)
  }

  /** Separators that keep words apart: all delimiters, and every gap
      strictly between two words non-empty. */
  predicate ValidGaps(gs: seq<seq<byte>>)
  {
    && (forall i :: 0 <= i < |gs| ==> AllDelim(gs[i]))
    && (forall i :: 0 < i < |gs| - 1 ==> gs[i] != [])
  }

  lemma ValidGapsCons(g: seq<byte>, gs: seq<seq<byte>>)
    requires AllDelim(g) && ValidGaps(gs)
    requires |gs| > 1 ==> gs[0] != []
    ensures ValidGaps([g] + gs)
  {
    var r := [g] + gs;
    forall i | 0 < i < |r| ensures r[i] == gs[i - 1] {
    }
  }

  /** gs[0] + ws[0] + gs[1] + ... + ws[n-1] + gs[n] */
  function Interleave(gs: seq<seq<byte>>, ws: seq<seq<byte>>): seq<byte>
    requires |gs| == |ws| + 1
  {
    if ws == [] then gs[0] else gs[0] + ws[0] + Interleave(gs[1..], ws[1..])
  }

  lemma InterleaveCons(g: seq<byte>, w: seq<byte>, gs: seq<seq<byte>>, ws: seq<seq<byte>>)
    requires |gs| == |ws| + 1
    ensures Interleave([g] + gs, [w] + ws) == g + w + Interleave(gs, ws)
  {
    assert ([g] + gs)[1..] == gs;
    assert ([w] + ws)[1..] == ws;
  }

  lemma {:induction false} DecomposeFrom(s: seq<byte>, i: nat)
    requires i <= |s|
    ensures |GapsFrom(s, i)| == |TokensFrom(s, i)| + 1 && ValidGaps(GapsFrom(s, i))
    ensures i < |s| && IsDelim(s[i]) ==> GapsFrom(s, i)[0] != []
    ensures Interleave(GapsFrom(s, i), TokensFrom(s, i)) == s[i..]
    decreases |s| - i
  {
    var a := SkipDelims(s, i);
    SkipDelimsSpec(s, i);
    var g := s[i..a];
    assert AllDelim(g) by {
      forall k | 0 <= k < |g| ensures IsDelim(g[k]) {
        assert g[k] == s[i + k];
      }
    }
    if a < |s| {
      var b := SkipWord(s, a);
      SkipWordSpec(s, a);
      DecomposeFrom(s, b);
      ValidGapsCons(g, GapsFrom(s, b));
      InterleaveCons(g, s[a..b], GapsFrom(s, b), TokensFrom(s, b));
      Slices3(s, i, a, b);
    }
  }

  lemma Slices3(s: seq<byte>, i: nat, a: nat, b: nat)
    requires i <= a <= b <= |s|
    ensures s[i..] == s[i..a] + s[a..b] + s[b..]
  {
  }

  /** Nothing is lost: a line is its gaps and its tokens laid end to end. */
  lemma Decompose(s: seq<byte>)
    ensures |GapsFrom(s, 0)| == |Tokens(s)| + 1 && ValidGaps(GapsFrom(s, 0))
    ensures Interleave(GapsFrom(s, 0), Tokens(s)) == s
  {
    DecomposeFrom(s, 0);
  }

  /** Where a line from `i` on is words laid out with valid gaps, the tokens
      from `i` on are those words. */
  lemma {:induction false} TokensFromInterleave(s: seq<byte>, i: nat, gs: seq<seq<byte>>, ws: seq<seq<byte>>)
    requires |gs| == |ws| + 1 && ValidGaps(gs) && ValidWords(ws)
    requires i <= |s| && s[i..] == Interleave(gs, ws)
    ensures TokensFrom(s, i) == ws
    decreases |ws|
  {
    var g := gs[0];
    var a := i + |g|;
    assert AllDelim(g);
    if ws == [] {
      assert forall k :: i <= k < |s| ==> s[k] == s[i..][k - i];
      SkipDelimsIs(s, i, |s|);
      TokensFromStep(s, i, |s|, |s|, |s|);
    } else {
      var w := ws[0];
      var b := a + |w|;
      var r := Interleave(gs[1..], ws[1..]);
      assert s[i..] == g + w + r;
      assert Parts: s[i..a] == g && s[a..b] == w && s[b..] == r by {
        Slices3(s, i, a, b);
      }
      assert forall k :: i <= k < a ==> s[k] == s[i..a][k - i];
      assert forall k :: a <= k < b ==> s[k] == s[a..b][k - a];
      assert NoDelim(w) && w != [];
      SkipDelimsIs(s, i, a);
      assert ValidGaps(gs[1..]) by {
        forall k | 0 < k < |gs[1..]| - 1 ensures gs[1..][k] != [] {
          assert gs[1..][k] == gs[k + 1];
        }
      }
      assert b < |s| ==> IsDelim(s[b]) by {
        if b < |s| {
          assert s[b] == r[0];
          if ws[1..] != [] {
            assert gs[1] != [] && r[0] == gs[1][0];
          } else {
            assert r == gs[1];
          }
        }
      }
      SkipWordIs(s, a, b);
      TokensFromInterleave(s, b, gs[1..], ws[1..]);
      TokensFromStep(s, i, a, b, b);
      SameHeadTail(TokensFrom(s, i), ws);
    }
  }

  lemma SameHeadTail(u: seq<seq<byte>>, v: seq<seq<byte>>)
    requires u != [] && v != [] && u[0] == v[0] && u[1..] == v[1..]
    ensures u == v
  {
    assert u == [u[0]] + u[1..];
    assert v == [v[0]] + v[1..];
  }

  /** The converse of Decompose: the tokens of words laid out with valid gaps
      are exactly those words, so tokens are the maximal delimiter-free runs
      of a line, in order. */
  lemma TokensOfInterleave(gs: seq<seq<byte>>, ws: seq<seq<byte>>)
    requires |gs| == |ws| + 1 && ValidGaps(gs) && ValidWords(ws)
    ensures Tokens(Interleave(gs, ws)) == ws
  {
    var s := Interleave(gs, ws);
    assert s[0..] == s;
    TokensFromInterleave(s, 0, gs, ws);
  }

  /** A line yields no tokens exactly when it is all delimiters. */
  lemma TokensEmptyIff(s: seq<byte>)
    ensures Tokens(s) == [] <==> AllDelim(s)
  {
    if AllDelim(s) {
      SkipDelimsIs(s, 0, |s|);
    } else {
      SkipDelimsSpec(s, 0);
    }
  }

  lemma {:induction false} TokensFromTrailingDelims(s: seq<byte>, e: seq<byte>, i: nat)
    requires AllDelim(e) && i <= |s|
    ensures TokensFrom(s + e, i) == TokensFrom(s, i)
    decreases |s| - i
  {
    var x := s + e;
    var a := SkipDelims(s, i);
    SkipDelimsSpec(s, i);
    if a == |s| {
      SkipDelimsIs(x, i, |x|);
    } else {
      SkipDelimsIs(x, i, a);
      var b := SkipWord(s, a);
      SkipWordSpec(s, a);
      SkipWordIs(x, a, b);
      assert x[a..b] == s[a..b];
      TokensFromTrailingDelims(s, e, b);
    }
  }

  /** Delimiters appended to a line (its newline, say) add no token. */
  lemma TokensTrailingDelims(s: seq<byte>, e: seq<byte>)
    requires AllDelim(e)
    ensures Tokens(s + e) == Tokens(s)
  {
    TokensFromTrailingDelims(s, e, 0);
  }

  /** What one `strtok` call finds from `i`: nothing when only delimiters
      are left, otherwise the word after them, with the rest of the tokens
      starting at the delimiter (or the end) after it, or one byte later. */
  lemma TokensFromStep(s: seq<byte>, i: nat, a: nat, b: nat, next: nat)
    requires i <= |s| && a == SkipDelims(s, i)
    requires a < |s| ==> b == SkipWord(s, a) && (next == b || (b < |s| && next == b + 1))
    ensures a == |s| <==> TokensFrom(s, i) == []
    ensures a < |s| ==> TokensFrom(s, i)[0] == s[a..b] && TokensFrom(s, i)[1..] == TokensFrom(s, next)
  {
    if a < |s| {
      if next == b + 1 {
        SkipWordSpec(s, a);
        TokensFromSkipDelim(s, b);
      }
    }
  }

  /** Starting one delimiter further on changes nothing. */
  lemma TokensFromSkipDelim(s: seq<byte>, i: nat)
    requires i < |s| && IsDelim(s[i])
    ensures TokensFrom(s, i + 1) == TokensFrom(s, i)
  {
    assert SkipDelims(s, i) == SkipDelims(s, i + 1);
  }

  /** From `pos` on, the buffer still holds what it held at first. */
  ghost predicate Agrees(s: array<byte>, orig: seq<byte>, pos: nat)
    reads s
  {
    |orig| == s.Length && forall k :: pos <= k < s.Length ==> s[k] == orig[k]
  }

  /** The buffer holds what it held at first, except for delimiters that
      have become NULs. */
  ghost predicate Delimited(s: array<byte>, orig: seq<byte>)
    reads s
  {
    |orig| == s.Length && forall k :: 0 <= k < s.Length ==> s[k] == orig[k] || (IsDelim(orig[k]) && s[k] == NUL)
  }

  /** The buffer agrees with the C string `c` from `pos` up to its end, and
      holds NUL just after it. */
  ghost predicate HoldsFrom(s: array<byte>, c: seq<byte>, pos: nat)
    reads s
  {
    && pos <= |c| < s.Length
    && NUL !in c
    && s[|c|] == NUL
    && (forall k :: pos <= k < |c| ==> s[k] == c[k])
  }

  lemma HoldsFromOrig(s: array<byte>, orig: seq<byte>, pos: nat)
    requires Agrees(s, orig, pos) && pos <= |CStr(orig)| < s.Length
    ensures HoldsFrom(s, CStr(orig), pos)
  {
  }

  /** `strspn(s + i, delims)`, as an index: the end of the delimiter run. */
  method SpanDelims(s: array<byte>, ghost c: seq<byte>, i: nat) returns (j: nat)
    requires HoldsFrom(s, c, i)
    ensures j == SkipDelims(c, i)
  {
    j := i;
    while s[j] != NUL && IsDelim(s[j])
      invariant i <= j <= |c|
      invariant SkipDelims(c, j) == SkipDelims(c, i)
      decreases |c| - j
    {
      assert j < |c| && s[j] == c[j];
      j := j + 1;
    }
    assert j == |c| || s[j] == c[j];
  }

  /** `strpbrk(s + i, delims)`, as an index: the end of the word, at the
      next delimiter or the terminating NUL. */
  method SpanWord(s: array<byte>, ghost c: seq<byte>, i: nat) returns (j: nat)
    requires HoldsFrom(s, c, i)
    ensures j == SkipWord(c, i) && s[i..j] == c[i..j]
  {
    j := i;
    while s[j] != NUL && !IsDelim(s[j])
      invariant i <= j <= |c|
      invariant SkipWord(c, j) == SkipWord(c, i)
      decreases |c| - j
    {
      assert j < |c| && s[j] == c[j];
      j := j + 1;
    }
    assert j == |c| || s[j] == c[j];
    assert s[i..j] == c[i..j] by {
      forall k | 0 <= k < j - i ensures s[i..j][k] == c[i..j][k] {
        assert s[i..j][k] == s[i + k];
      }
    }
  }

  /** One `strtok` call on the buffer `s` whose saved position is `pos`.
      `orig` is what the buffer held before the first call and `c` is its C
      string; calls so far have only overwritten bytes before `pos`. The call
      skips delimiters, returns the word there (as the bytes the returned
      pointer designates), overwrites the delimiter ending it with NUL and
      saves the position after it; at the end of the string it returns NULL
      (`found` false) and changes nothing. */
  method Strtok(s: array<byte>, pos: nat, ghost orig: seq<byte>) returns (found: bool, tok: seq<byte>, next: nat)
    requires Agrees(s, orig, pos) && pos <= |CStr(orig)| < s.Length
    requires Delimited(s, orig)
    modifies s
    ensures var c := CStr(orig);
      && found == (TokensFrom(c, pos) != [])
      && pos <= next <= |c|
      && (found ==> tok == TokensFrom(c, pos)[0] && pos < next)
      && TokensFrom(c, next) == (if found then TokensFrom(c, pos)[1..] else [])
      && Agrees(s, orig, next)
    ensures Delimited(s, orig)
    ensures !found ==> s[..] == old(s[..])
    ensures found && IsDelim(orig[next - 1]) ==> s[..] == old(s[..])[next - 1 := NUL]
    ensures found && !IsDelim(orig[next - 1]) ==> s[..] == old(s[..])
  {
    ghost var c := CStr(orig);
    HoldsFromOrig(s, orig, pos);
    var i := SpanDelims(s, c, pos);
    if s[i] == NUL {
      found, tok, next := false, [], i;
      TokensFromStep(c, pos, i, i, i);
      TokensFromStep(c, i, i, i, i);
      return;
    }
    var j := SpanWord(s, c, i);
    found, tok := true, s[i..j];
    if s[j] == NUL {
      next := j;
      SkipWordSpec(c, i);
      assert orig[j - 1] == c[j - 1] && !IsDelim(c[j - 1]);
    } else {
      assert j < |c| && s[j] == c[j] == orig[j];
      SkipWordSpec(c, i);
      s[j] := NUL;
      next := j + 1;
    }
    TokensFromStep(c, pos, i, j, next);
  }
}
