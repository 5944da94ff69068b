/** The chunker of `SendSegmentedErrors`: an error text too long for one
    message is cut into lines at the platform newline, and the trimmed lines are
    packed greedily into chunks under the message length limit. */
module Chunker {
  import opened Text

  /** Message length limit the chunker packs against (characters). */
  const Limit := 2000

  /** The chunks built from `lines` when the buffer already holds `buffer`.
      A line whose untrimmed length still fits (`|buffer| + |line| < Limit`) is
      appended trimmed, followed by `nl`. A line that does not fit seals the
      buffer, even an empty one, and is itself dropped. A non-empty buffer left
      at the end is sealed too. */
  function Pack(buffer: string, lines: seq<string>, nl: string): seq<string>
    decreases |lines|
  {
    if lines == [] then (if |buffer| > 0 then [buffer] else [])
    else if |buffer| + |lines[0]| < Limit then Pack(buffer + Trim(lines[0]) + nl, lines[1..], nl)
    else [buffer] + Pack("", lines[1..], nl)
  }

  /** `error.Split(Environment.NewLine)` packed from an empty buffer. */
  function Chunks(error: string, nl: string): seq<string>
    requires |nl| > 0
  {
    Pack("", Split(error, nl), nl)
  }

  /** The lines that end up in some chunk: every line but the ones that seal. */
  ghost function Kept(buffer: string, lines: seq<string>, nl: string): seq<string>
    decreases |lines|
  {
    if lines == [] then []
    else if |buffer| + |lines[0]| < Limit then [lines[0]] + Kept(buffer + Trim(lines[0]) + nl, lines[1..], nl)
    else Kept("", lines[1..], nl)
  }

  /** The chunks read one after the other. */
  function Concat(chunks: seq<string>): string {
    Join(chunks, "")
  }

  /** Sum over the lines of their length plus one newline each. */
  function Footprint(lines: seq<string>, nl: string): nat
    decreases |lines|
  {
    if lines == [] then 0 else |lines[0]| + |nl| + Footprint(lines[1..], nl)
  }

  /** A line that does not fit seals the buffer: the buffer joins the chunks
      built so far and packing goes on from an empty buffer. */
  lemma SealBuffer(chunks: seq<string>, buffer: string, lines: seq<string>, nl: string)
    requires lines != [] && |buffer| + |lines[0]| >= Limit
    ensures chunks + Pack(buffer, lines, nl) == (chunks + [buffer]) + Pack("", lines[1..], nl)
  {
    assert chunks + ([buffer] + Pack("", lines[1..], nl)) == (chunks + [buffer]) + Pack("", lines[1..], nl);
  }

  /** At the end of the lines only a non-empty buffer becomes a chunk. */
  lemma FlushBuffer(chunks: seq<string>, buffer: string, nl: string)
    ensures chunks + Pack(buffer, [], nl) == if |buffer| > 0 then chunks + [buffer] else chunks
  {
    if |buffer| == 0 {
      assert chunks + [] == chunks;
    }
  }

  // ---------------------------------------------------------------------------

  /** No chunk reaches `Limit + |nl|` characters: each holds at most 1999 plus one newline. */
  lemma {:induction false} ChunkBound(buffer: string, lines: seq<string>, nl: string)
    requires |buffer| < Limit + |nl|
    ensures forall k :: 0 <= k < |Pack(buffer, lines, nl)| ==> |Pack(buffer, lines, nl)[k]| < Limit + |nl|
    decreases |lines|
  {
    if lines != [] {
      if |buffer| + |lines[0]| < Limit {
        ChunkBound(buffer + Trim(lines[0]) + nl, lines[1..], nl);
      } else {
        ChunkBound("", lines[1..], nl);
      }
    }
  }

  /** The chunks, read one after the other, are the starting buffer followed by the
      kept lines exactly as `AppendLine` writes them: nothing is added, reordered or cut. */
  lemma {:induction false} PackKeepsText(buffer: string, lines: seq<string>, nl: string)
    ensures Concat(Pack(buffer, lines, nl)) == buffer + AppendLines(Kept(buffer, lines, nl), nl)
    decreases |lines|
  {
    if lines == [] {
      assert AppendLines(Kept(buffer, lines, nl), nl) == "";
      assert buffer + "" == buffer;
      if |buffer| > 0 {
        ConcatCons(buffer, []);
      }
    } else if |buffer| + |lines[0]| < Limit {
      var t := Trim(lines[0]);
      var b := buffer + t + nl;
      var kept := Kept(b, lines[1..], nl);
      PackKeepsText(b, lines[1..], nl);
      assert ([lines[0]] + kept)[0] == lines[0] && ([lines[0]] + kept)[1..] == kept;
      ConcatAssoc(buffer, t, nl, AppendLines(kept, nl));
    } else {
      var rest := Pack("", lines[1..], nl);
      PackKeepsText("", lines[1..], nl);
      ConcatCons(buffer, rest);
      var a := AppendLines(Kept("", lines[1..], nl), nl);
      assert "" + a == a;
    }
  }

  /** `c` is lines `i` to `j` of `ls`, trimmed, each followed by the newline. */
  ghost predicate WholeLines(c: string, ls: seq<string>, nl: string) {
    exists i, j {:trigger AppendLines(ls[i..j], nl)} :: 0 <= i <= j <= |ls| && c == AppendLines(ls[i..j], nl)
  }

  /** Every chunk of `cs` is whole lines of `ls`. */
  ghost predicate AllWholeLines(cs: seq<string>, ls: seq<string>, nl: string)
    decreases |cs|
  {
    cs == [] || (WholeLines(cs[0], ls, nl) && AllWholeLines(cs[1..], ls, nl))
  }

  lemma {:induction false} AllWholeLinesAt(cs: seq<string>, ls: seq<string>, nl: string, k: nat)
    requires AllWholeLines(cs, ls, nl) && k < |cs|
    ensures WholeLines(cs[k], ls, nl)
    decreases k
  {
    if k > 0 {
      AllWholeLinesAt(cs[1..], ls, nl, k - 1);
    }
  }

  /** Every chunk is whole lines: packing a buffer that holds lines `s` to `t`
      of `ls`, and then the lines from `t` on, gives chunks that are each some
      run of consecutive lines. No line is cut across two chunks. */
  lemma {:induction false} ChunksAreWholeLines(ls: seq<string>, s: nat, t: nat, buffer: string, nl: string)
    requires s <= t <= |ls| && buffer == AppendLines(ls[s..t], nl)
    ensures AllWholeLines(Pack(buffer, ls[t..], nl), ls, nl)
    decreases |ls| - t, 1
  {
    if t == |ls| {
      assert ls[t..] == [];
      WholeLinesAt(ls, s, t, nl);
      LastChunkWholeLines(buffer, ls, nl);
    } else if |buffer| + |ls[t]| < Limit {
      FitKeepsWholeLines(ls, s, t, buffer, nl);
    } else {
      SealKeepsWholeLines(ls, s, t, buffer, nl);
    }
  }

  /** A line that fits joins the buffer, which then holds lines `s` to `t + 1`. */
  lemma {:induction false} FitKeepsWholeLines(ls: seq<string>, s: nat, t: nat, buffer: string, nl: string)
    requires s <= t < |ls| && buffer == AppendLines(ls[s..t], nl)
    requires |buffer| + |ls[t]| < Limit
    ensures AllWholeLines(Pack(buffer, ls[t..], nl), ls, nl)
    decreases |ls| - t, 0
  {
    AppendLinesSnoc(ls, s, t, nl);
    ChunksAreWholeLines(ls, s, t + 1, AppendLines(ls[s..t + 1], nl), nl);
    assert ls[t..][0] == ls[t] && ls[t..][1..] == ls[t + 1..];
  }

  /** A line that does not fit seals the buffer, and packing starts over after it. */
  lemma {:induction false} SealKeepsWholeLines(ls: seq<string>, s: nat, t: nat, buffer: string, nl: string)
    requires s <= t < |ls| && buffer == AppendLines(ls[s..t], nl)
    requires |buffer| + |ls[t]| >= Limit
    ensures AllWholeLines(Pack(buffer, ls[t..], nl), ls, nl)
    decreases |ls| - t, 0
  {
    assert ls[t + 1..t + 1] == [];
    ChunksAreWholeLines(ls, t + 1, t + 1, "", nl);
    WholeLinesAt(ls, s, t, nl);
    SealedWholeLines(ls, t, buffer, nl);
  }

  /** A sealed whole-lines buffer in front of whole-lines chunks. */
  lemma SealedWholeLines(ls: seq<string>, t: nat, buffer: string, nl: string)
    requires t < |ls| && |buffer| + |ls[t]| >= Limit
    requires WholeLines(buffer, ls, nl) && AllWholeLines(Pack("", ls[t + 1..], nl), ls, nl)
    ensures AllWholeLines(Pack(buffer, ls[t..], nl), ls, nl)
  {
    var cs := Pack(buffer, ls[t..], nl);
    assert ls[t..][0] == ls[t] && ls[t..][1..] == ls[t + 1..];
    assert cs == [buffer] + Pack("", ls[t + 1..], nl);
    assert cs[0] == buffer && cs[1..] == Pack("", ls[t + 1..], nl);
  }

  /** The buffer left at the end is the last chunk, if it is not empty. */
  lemma LastChunkWholeLines(buffer: string, ls: seq<string>, nl: string)
    requires WholeLines(buffer, ls, nl)
    ensures AllWholeLines(Pack(buffer, [], nl), ls, nl)
  {
  }

  lemma WholeLinesAt(ls: seq<string>, i: nat, j: nat, nl: string)
    requires i <= j <= |ls|
    ensures WholeLines(AppendLines(ls[i..j], nl), ls, nl)
  {
  }

  /** One more line in the buffer is that line, trimmed, and a newline at its end. */
  lemma {:induction false} AppendLinesSnoc(ls: seq<string>, s: nat, t: nat, nl: string)
    requires s <= t < |ls|
    ensures AppendLines(ls[s..t + 1], nl) == AppendLines(ls[s..t], nl) + Trim(ls[t]) + nl
    decreases t - s
  {
    if s == t {
      assert ls[s..t + 1] == [ls[t]] && ls[s..t + 1][1..] == [];
      assert ls[s..t] == [];
    } else {
      assert ls[s..t + 1][0] == ls[s] && ls[s..t + 1][1..] == ls[s + 1..t + 1];
      assert ls[s..t][0] == ls[s] && ls[s..t][1..] == ls[s + 1..t];
      AppendLinesSnoc(ls, s + 1, t, nl);
      ConcatAssoc(Trim(ls[s]) + nl, AppendLines(ls[s + 1..t], nl), Trim(ls[t]), nl);
    }
  }

  /** Each chunk of an error is a run of its consecutive lines, trimmed, each
      followed by the newline. */
  lemma ChunksOfErrorAreWholeLines(error: string, nl: string)
    requires |nl| > 0
    ensures forall k :: 0 <= k < |Chunks(error, nl)| ==> WholeLines(Chunks(error, nl)[k], Split(error, nl), nl)
  {
    var ls := Split(error, nl);
    assert ls[0..0] == [] && ls[0..] == ls;
    assert AppendLines(ls[0..0], nl) == "";
    ChunksAreWholeLines(ls, 0, 0, "", nl);
    forall k | 0 <= k < |Chunks(error, nl)| ensures WholeLines(Chunks(error, nl)[k], ls, nl) {
      AllWholeLinesAt(Chunks(error, nl), ls, nl, k);
    }
  }

  lemma ConcatCons(c: string, rest: seq<string>)
    ensures Concat([c] + rest) == c + Concat(rest)
  {
    var cs := [c] + rest;
    assert cs[0] == c && cs[1..] == rest;
    if rest == [] {
      assert |cs| == 1 && c + "" == c;
    } else {
      assert Join(cs, "") == c + "" + Join(rest, "");
      assert c + "" + Join(rest, "") == c + Join(rest, "");
    }
  }

  lemma {:induction false} KeptIsSubsequence(buffer: string, lines: seq<string>, nl: string)
    ensures Subsequence(Kept(buffer, lines, nl), lines)
    decreases |lines|
  {
    if lines != [] {
      if |buffer| + |lines[0]| < Limit {
        var b := buffer + Trim(lines[0]) + nl;
        KeptIsSubsequence(b, lines[1..], nl);
        assert ([lines[0]] + Kept(b, lines[1..], nl))[1..] == Kept(b, lines[1..], nl);
      } else {
        KeptIsSubsequence("", lines[1..], nl);
        SubsequenceOfTail(Kept("", lines[1..], nl), lines);
      }
    }
  }

  /** Only a line of `Limit` characters or more, on its own too long for any chunk,
      can be dropped, and only then is an empty chunk emitted: every empty chunk
      comes from such a line. */
  lemma {:induction false} EmptyChunkNeedsOversizedLine(buffer: string, lines: seq<string>, nl: string)
    requires |nl| > 0
    ensures forall k :: 0 <= k < |Pack(buffer, lines, nl)| && Pack(buffer, lines, nl)[k] == "" ==>
              exists l :: l in lines && |l| >= Limit
    decreases |lines|
  {
    if lines != [] {
      if |buffer| + |lines[0]| < Limit {
        EmptyChunkNeedsOversizedLine(buffer + Trim(lines[0]) + nl, lines[1..], nl);
        assert forall l :: l in lines[1..] ==> l in lines;
      } else {
        EmptyChunkNeedsOversizedLine("", lines[1..], nl);
        assert forall l :: l in lines[1..] ==> l in lines;
        if buffer == "" {
          assert lines[0] in lines && |lines[0]| >= Limit;
        }
      }
    }
  }

  /** A non-empty error produces at least one chunk, so at least one message. */
  lemma {:induction false} SomeChunk(buffer: string, lines: seq<string>, nl: string)
    requires lines != [] || |buffer| > 0
    requires |nl| > 0
    ensures |Pack(buffer, lines, nl)| >= 1
    decreases |lines|
  {
    if lines != [] && |buffer| + |lines[0]| < Limit {
      SomeChunk(buffer + Trim(lines[0]) + nl, lines[1..], nl);
    }
  }

  /** Lines that fit together under the limit are all kept, in a single chunk. */
  lemma {:induction false} FitsInOneChunk(buffer: string, lines: seq<string>, nl: string)
    requires |buffer| + Footprint(lines, nl) < Limit
    ensures var all := buffer + AppendLines(lines, nl);
            Pack(buffer, lines, nl) == (if |all| > 0 then [all] else [])
    decreases |lines|
  {
    if lines != [] {
      var b := buffer + Trim(lines[0]) + nl;
      assert |buffer| + |lines[0]| < Limit;
      assert Pack(buffer, lines, nl) == Pack(b, lines[1..], nl);
      FitsInOneChunk(b, lines[1..], nl);
      assert b + AppendLines(lines[1..], nl) == buffer + AppendLines(lines, nl);
    } else {
      assert buffer + AppendLines(lines, nl) == buffer;
    }
  }

  /** A line that arrives when the buffer is too full is lost: with `b + a` still
      under the limit and the trimmed `a` plus `x` over it, `x` seals the buffer,
      appears in no chunk, and packing goes on with `rest` from an empty buffer. */
  lemma LineAfterFullBufferIsLost(b: string, a: string, x: string, rest: seq<string>, nl: string)
    requires |b| + |a| < Limit <= |b| + |Trim(a)| + |nl| + |x|
    ensures Pack(b, [a, x] + rest, nl) == [b + Trim(a) + nl] + Pack("", rest, nl)
    ensures Kept(b, [a, x] + rest, nl) == [a] + Kept("", rest, nl)
  {
    var lines := [a, x] + rest;
    var full := b + Trim(a) + nl;
    assert lines[0] == a && lines[1..] == [x] + rest;
    assert ([x] + rest)[0] == x && ([x] + rest)[1..] == rest;
    assert Pack(full, [x] + rest, nl) == [full] + Pack("", rest, nl);
    assert Kept(full, [x] + rest, nl) == Kept("", rest, nl);
  }

}
