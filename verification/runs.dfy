/** Sequences of `nofs_writeString` calls, before and after a restart: no byte
    is lost or duplicated, no written sector is ever overwritten, commits
    come in the batches `NOFS_WRITE_BUFFER_AFTER_NTH_COMMAND` prescribes, and
    nothing the layer reports or keeps depends on what the card holds.
 */
module Runs {
  import opened Sdmmc
  import opened NoFS
  import opened LogImage

  /** All strings handed to the layer, in order, as one byte stream. */
  function Concat(ss: seq<seq<byte>>): seq<byte>
    decreases |ss|
  {
    if |ss| == 0 then [] else ss[0] + Concat(ss[1..])
  }

  predicate AllCStrings(ss: seq<seq<byte>>) {
    forall i :: 0 <= i < |ss| ==> NoNul(ss[i])
  }

  /** The layer driven by one `nofs_writeString` call per string, stopping at
      the first failing call. */
  function Run(st: State, c: Card, ss: seq<seq<byte>>): (r: Result<Step>)
    requires Inv(st) && Valid(c) && AllCStrings(ss)
    ensures r.Ok? ==> Inv(r.value.state) && Valid(r.value.card)
    ensures r.Ok? ==> r.value.card.faulty == c.faulty && |r.value.card.sectors| == |c.sectors|
    ensures r.Ok? ==> r.value.state.cursor >= st.cursor
    ensures r.Ok? && st.cursor <= |c.sectors| ==> r.value.state.cursor <= |c.sectors|
    ensures r.Ok? && st.cursor <= |c.sectors| ==> r.value.state.cursor < SectorNumberLimit
    decreases |ss|
  {
    if |ss| == 0 then
      Ok(Step(st, c))
    else
      match WriteString(st, c, ss[0])
      case Err(e) => Err(e)
      case Ok(step) => Run(step.state, step.card, ss[1..])
  }

  /** A run is its first call followed by the run of the rest. */
  lemma RunUnfold(st: State, c: Card, ss: seq<seq<byte>>)
    requires Inv(st) && Valid(c) && AllCStrings(ss)
    requires |ss| > 0 && WriteString(st, c, ss[0]).Ok?
    ensures Run(st, c, ss) == Run(WriteString(st, c, ss[0]).value.state, WriteString(st, c, ss[0]).value.card, ss[1..])
  {
  }

  /** What a call leaves visible: its status and, on success, the layer's
      state; the card is left out. */
  function Observed(r: Result<Step>): Result<State> {
    match r
    case Ok(step) => Ok(step.state)
    case Err(e) => Err(e)
  }

  /** Over any sequence of calls, log plus pending grows by exactly the
      concatenation of the strings. */
  lemma {:induction false} RunKeepsEveryByte(st: State, c: Card, ss: seq<seq<byte>>, lo: nat)
    requires Inv(st) && Valid(c) && AllCStrings(ss)
    requires lo <= st.cursor <= |c.sectors|
    requires Run(st, c, ss).Ok?
    ensures Run(st, c, ss).value.state.cursor <= |c.sectors|
    ensures Log(Run(st, c, ss).value.card.sectors, lo, Run(st, c, ss).value.state.cursor)
            + Pending(Run(st, c, ss).value.state)
         == Log(c.sectors, lo, st.cursor) + Pending(st) + Concat(ss)
    decreases |ss|
  {
    if |ss| > 0 {
      var step := WriteString(st, c, ss[0]).value;
      RunUnfold(st, c, ss);
      WriteStringKeepsEveryByte(st, c, ss[0], lo);
      RunKeepsEveryByte(step.state, step.card, ss[1..], lo);
      ConcatCons(Log(c.sectors, lo, st.cursor) + Pending(st), ss);
    }
  }

  lemma ConcatCons(prefix: seq<byte>, ss: seq<seq<byte>>)
    requires |ss| > 0
    ensures prefix + ss[0] + Concat(ss[1..]) == prefix + Concat(ss)
  {
  }

  /** No byte lost or duplicated: after start-up at sector `k`, the text of
      the sectors committed since then, followed by the buffer, is exactly
      the concatenation of every string written, in order. */
  lemma {:induction false} NoByteLostOrDuplicated(c: Card, k: nat, ss: seq<seq<byte>>)
    requires Valid(c) && k <= |c.sectors| && AllCStrings(ss)
    requires Run(Fresh(k), c, ss).Ok?
    ensures var r := Run(Fresh(k), c, ss).value;
      Log(r.card.sectors, k, r.state.cursor) + Pending(r.state) == Concat(ss)
  {
    RunKeepsEveryByte(Fresh(k), c, ss, k);
  }

  /** One call keeps the card log-shaped at the cursor and never changes a
      sector that already held data. */
  lemma WriteStringKeepsLogShape(st: State, c: Card, s: seq<byte>)
    requires Inv(st) && Valid(c) && NoNul(s)
    requires LogShaped(c, st.cursor)
    requires WriteString(st, c, s).Ok?
    ensures LogShaped(WriteString(st, c, s).value.card, WriteString(st, c, s).value.state.cursor)
    ensures forall j :: 0 <= j < |c.sectors| && !Blank(c.sectors[j]) ==>
      WriteString(st, c, s).value.card.sectors[j] == c.sectors[j]
  {
    WriteStringCommitsOnly(st, c, s);
  }

  /** No overwrite: over any sequence of calls the cursor never decreases,
      the card stays log-shaped at the cursor, and no sector that held data
      (from this run or an earlier one) is ever written again. */
  lemma {:induction false} RunNeverOverwrites(st: State, c: Card, ss: seq<seq<byte>>)
    requires Inv(st) && Valid(c) && AllCStrings(ss)
    requires LogShaped(c, st.cursor)
    requires Run(st, c, ss).Ok?
    ensures Run(st, c, ss).value.state.cursor >= st.cursor
    ensures LogShaped(Run(st, c, ss).value.card, Run(st, c, ss).value.state.cursor)
    ensures forall j :: 0 <= j < |c.sectors| && !Blank(c.sectors[j]) ==>
      Run(st, c, ss).value.card.sectors[j] == c.sectors[j]
    decreases |ss|
  {
    if |ss| > 0 {
      var step := WriteString(st, c, ss[0]).value;
      assert Run(st, c, ss) == Run(step.state, step.card, ss[1..]);
      WriteStringKeepsLogShape(st, c, ss[0]);
      RunNeverOverwrites(step.state, step.card, ss[1..]);
    }
  }

  /** Recovery after a run lands exactly on that run's cursor: the next
      start-up resumes where the last one stopped committing. */
  lemma RestartResumesAtCursor(c: Card, k: nat, ss: seq<seq<byte>>, m: nat)
    requires Valid(c) && LogShaped(c, k) && AllCStrings(ss)
    requires Run(Fresh(k), c, ss).Ok?
    requires IsFirstBlank(Run(Fresh(k), c, ss).value.card, m)
    ensures m == Run(Fresh(k), c, ss).value.state.cursor
    ensures LogShaped(Run(Fresh(k), c, ss).value.card, m)
  {
    var r := Run(Fresh(k), c, ss).value;
    RunNeverOverwrites(Fresh(k), c, ss);
    FirstBlankOfLogShaped(r.card, m, r.state.cursor);
  }

  /** A restart loses nothing that was committed: a second run, started at
      the sector recovery finds, never writes a sector that held data, and
      the log from the first start-up position reads as the first run's
      committed text followed by the second run's strings. */
  lemma {:induction false} RestartNeverOverwrites(c: Card, k: nat, ss1: seq<seq<byte>>, m: nat, ss2: seq<seq<byte>>)
    requires Valid(c) && LogShaped(c, k) && AllCStrings(ss1) && AllCStrings(ss2)
    requires Run(Fresh(k), c, ss1).Ok?
    requires IsFirstBlank(Run(Fresh(k), c, ss1).value.card, m)
    requires Run(Fresh(m), Run(Fresh(k), c, ss1).value.card, ss2).Ok?
    ensures var r1 := Run(Fresh(k), c, ss1).value; var r2 := Run(Fresh(m), r1.card, ss2).value;
      forall j :: 0 <= j < |c.sectors| && !Blank(r1.card.sectors[j]) ==> r2.card.sectors[j] == r1.card.sectors[j]
    ensures var r1 := Run(Fresh(k), c, ss1).value; var r2 := Run(Fresh(m), r1.card, ss2).value;
      Log(r2.card.sectors, k, r2.state.cursor) + Pending(r2.state) == Log(r1.card.sectors, k, m) + Concat(ss2)
  {
    var r1 := Run(Fresh(k), c, ss1).value;
    RestartResumesAtCursor(c, k, ss1, m);
    ContinuedRun(r1.card, k, m, ss2);
  }

  /** A run started at `m` on a card log-shaped at `m` keeps every sector
      that held data and extends the log from any earlier position `k`. */
  lemma ContinuedRun(c: Card, k: nat, m: nat, ss: seq<seq<byte>>)
    requires Valid(c) && k <= m && LogShaped(c, m) && AllCStrings(ss)
    requires Run(Fresh(m), c, ss).Ok?
    ensures forall j :: 0 <= j < |c.sectors| && !Blank(c.sectors[j]) ==>
      Run(Fresh(m), c, ss).value.card.sectors[j] == c.sectors[j]
    ensures Log(Run(Fresh(m), c, ss).value.card.sectors, k, Run(Fresh(m), c, ss).value.state.cursor)
            + Pending(Run(Fresh(m), c, ss).value.state)
         == Log(c.sectors, k, m) + Concat(ss)
  {
    RunNeverOverwrites(Fresh(m), c, ss);
    RunKeepsEveryByte(Fresh(m), c, ss, k);
    assert Log(c.sectors, k, m) + Pending(Fresh(m)) == Log(c.sectors, k, m);
  }

  /** A call that neither fills the buffer nor is the tenth writes nothing
      to the card and only adds its string to the buffer. */
  lemma QuietCall(st: State, c: Card, s: seq<byte>)
    requires Inv(st) && Valid(c) && NoNul(s)
    requires st.count + 1 < WriteAfterNth && st.fill + |s| < BufferSize
    ensures WriteString(st, c, s).Ok?
    ensures WriteString(st, c, s).value.card == c
    ensures WriteString(st, c, s).value.state.cursor == st.cursor
    ensures WriteString(st, c, s).value.state.count == st.count + 1
    ensures Pending(WriteString(st, c, s).value.state) == Pending(st) + s
  {
  }

  /** The tenth call, when it does not fill the buffer, commits exactly one
      sector holding the buffered text and its string, zero-padded. */
  lemma LastCallCommits(st: State, c: Card, s: seq<byte>)
    requires Inv(st) && Valid(c) && NoNul(s)
    requires st.count + 1 == WriteAfterNth && 0 < st.fill + |s| < BufferSize
    ensures WriteString(st, c, s).Ok? <==> Usable(c, st.cursor)
    ensures WriteString(st, c, s).Ok? ==>
      && WriteString(st, c, s).value.card.sectors == c.sectors[st.cursor := Pad(Pending(st) + s, st.fill + |s|)]
      && WriteString(st, c, s).value.state.cursor == st.cursor + 1
      && WriteString(st, c, s).value.state.fill == 0
      && WriteString(st, c, s).value.state.count == 0
  {
    var a := Append(st, c, s).value;
    assert Pad(a.state.buffer, a.state.fill) == Pad(Pending(st) + s, st.fill + |s|);
    WritableSplit(c, st.cursor, st.cursor + 1);
  }

  /** Batching, quiet part: calls that neither fill the buffer nor reach the
      tenth call always succeed and write nothing to the card. */
  lemma {:induction false} QuietCalls(st: State, c: Card, ss: seq<seq<byte>>)
    requires Inv(st) && Valid(c) && AllCStrings(ss)
    requires st.count + |ss| < WriteAfterNth
    requires st.fill + |Concat(ss)| < BufferSize
    ensures Run(st, c, ss).Ok?
    ensures Run(st, c, ss).value.card == c
    ensures Run(st, c, ss).value.state.cursor == st.cursor
    ensures Run(st, c, ss).value.state.count == st.count + |ss|
    ensures Pending(Run(st, c, ss).value.state) == Pending(st) + Concat(ss)
    decreases |ss|
  {
    if |ss| > 0 {
      QuietCall(st, c, ss[0]);
      var step := WriteString(st, c, ss[0]).value;
      RunUnfold(st, c, ss);
      QuietCalls(step.state, c, ss[1..]);
      ConcatCons(Pending(st), ss);
    }
  }

  /** Batching, commit part: the call that brings the counter to ten commits
      exactly one sector, holding all text buffered so far, zero-padded; the
      cursor advances by one and counter and buffer start over. */
  lemma {:induction false} TenthCallCommitsOnce(st: State, c: Card, ss: seq<seq<byte>>)
    requires Inv(st) && Valid(c) && AllCStrings(ss)
    requires |ss| > 0 && st.count + |ss| == WriteAfterNth
    requires 0 < st.fill + |Concat(ss)| < BufferSize
    ensures Run(st, c, ss).Ok? <==> Usable(c, st.cursor)
    ensures Run(st, c, ss).Ok? ==>
      && Run(st, c, ss).value.card.sectors
           == c.sectors[st.cursor := Pad(Pending(st) + Concat(ss), st.fill + |Concat(ss)|)]
      && Run(st, c, ss).value.state.cursor == st.cursor + 1
      && Run(st, c, ss).value.state.fill == 0
      && Run(st, c, ss).value.state.count == 0
    decreases |ss|
  {
    ConcatCons([], ss);
    if |ss| == 1 {
      LastCallCommits(st, c, ss[0]);
      assert Concat(ss[1..]) == [];
      assert Concat(ss) == ss[0];
      if WriteString(st, c, ss[0]).Ok? {
        RunUnfold(st, c, ss);
      }
    } else {
      QuietCall(st, c, ss[0]);
      var step := WriteString(st, c, ss[0]).value;
      RunUnfold(st, c, ss);
      TenthCallCommitsOnce(step.state, c, ss[1..]);
      ConcatCons(Pending(st), ss);
    }
  }

  /** Appending a string that exactly fills the buffer commits one sector
      holding the buffered text and the string. */
  lemma {:induction false} AppendFillsSector(st: State, c: Card, s: seq<byte>)
    requires Inv(st) && Valid(c) && NoNul(s)
    requires st.fill + |s| == BufferSize
    ensures Append(st, c, s).Ok? <==> Usable(c, st.cursor)
    ensures Append(st, c, s).Ok? ==>
      Append(st, c, s).value.card.sectors == c.sectors[st.cursor := Pending(st) + s]
    decreases |s|
  {
    WritableSplit(c, st.cursor, st.cursor + 1);
    var step := PutByte(st, c, s[0]);
    if |s| == 1 {
      assert [s[0]] == s;
      if step.Ok? {
        AppendUnfold(st, c, s);
      }
    } else {
      AppendUnfold(st, c, s);
      AppendFillsSector(step.value.state, c, s[1..]);
      ConsBytes(Pending(st), s);
    }
  }

  /** A call whose string exactly fills the buffer commits exactly one
      sector, holding the buffered text and the string, and leaves the buffer
      empty; on the tenth call the emptied buffer is not committed again. */
  lemma ExactFitCommitsOnce(st: State, c: Card, s: seq<byte>)
    requires Inv(st) && Valid(c) && NoNul(s)
    requires st.fill + |s| == BufferSize
    ensures WriteString(st, c, s).Ok? <==> Usable(c, st.cursor)
    ensures WriteString(st, c, s).Ok? ==>
      && WriteString(st, c, s).value.card.sectors == c.sectors[st.cursor := Pending(st) + s]
      && WriteString(st, c, s).value.state.cursor == st.cursor + 1
      && WriteString(st, c, s).value.state.fill == 0
      && WriteString(st, c, s).value.state.count == (st.count + 1) % WriteAfterNth
  {
    AppendFillsSector(st, c, s);
  }

  /** Write-only memory, first half: appending depends on the card only
      through its size and its faulty sectors, never on its contents. */
  lemma {:induction false} AppendIgnoresCardContents(st: State, c1: Card, c2: Card, s: seq<byte>)
    requires Inv(st) && Valid(c1) && Valid(c2) && NoNul(s)
    requires |c1.sectors| == |c2.sectors| && c1.faulty == c2.faulty
    ensures Observed(Append(st, c1, s)) == Observed(Append(st, c2, s))
    decreases |s|
  {
    if |s| > 0 {
      var p1 := PutByte(st, c1, s[0]);
      var p2 := PutByte(st, c2, s[0]);
      assert Observed(p1) == Observed(p2);
      if p1.Ok? {
        AppendIgnoresCardContents(p1.value.state, p1.value.card, p2.value.card, s[1..]);
      }
    }
  }

  /** Write-only memory: what `nofs_writeString` reports and what the layer
      keeps never depend on what the card holds, so no call can reveal
      anything previously written. */
  lemma WriteStringIgnoresCardContents(st: State, c1: Card, c2: Card, s: seq<byte>)
    requires Inv(st) && Valid(c1) && Valid(c2) && NoNul(s)
    requires |c1.sectors| == |c2.sectors| && c1.faulty == c2.faulty
    ensures Observed(WriteString(st, c1, s)) == Observed(WriteString(st, c2, s))
  {
    AppendIgnoresCardContents(st, c1, c2, s);
  }

  /** Write-only memory over any sequence of calls. */
  lemma {:induction false} RunIgnoresCardContents(st: State, c1: Card, c2: Card, ss: seq<seq<byte>>)
    requires Inv(st) && Valid(c1) && Valid(c2) && AllCStrings(ss)
    requires |c1.sectors| == |c2.sectors| && c1.faulty == c2.faulty
    ensures Observed(Run(st, c1, ss)) == Observed(Run(st, c2, ss))
    decreases |ss|
  {
    if |ss| > 0 {
      WriteStringIgnoresCardContents(st, c1, c2, ss[0]);
      var w1 := WriteString(st, c1, ss[0]);
      var w2 := WriteString(st, c2, ss[0]);
      if w1.Ok? {
        RunIgnoresCardContents(w1.value.state, w1.value.card, w2.value.card, ss[1..]);
      }
    }
  }

  /** One string per byte of `bs`. */
  function Singles(bs: seq<byte>): (ss: seq<seq<byte>>)
    ensures |ss| == |bs|
    ensures forall i :: 0 <= i < |bs| ==> ss[i] == [bs[i]]
  {
    seq(|bs|, i requires 0 <= i < |bs| => [bs[i]])
  }

  /** Writing the bytes one string at a time hands the layer the same stream. */
  lemma {:induction false} ConcatSingles(bs: seq<byte>)
    ensures Concat(Singles(bs)) == bs
    decreases |bs|
  {
    if |bs| > 0 {
      assert Singles(bs)[1..] == Singles(bs[1..]);
      ConcatSingles(bs[1..]);
      assert bs == [bs[0]] + bs[1..];
    }
  }

  /** One string followed by single-byte strings hands the layer that string
      followed by those bytes. */
  lemma ConcatAfterOne(first: seq<byte>, bs: seq<byte>)
    ensures Concat([first] + Singles(bs)) == first + bs
    ensures |Concat([first] + Singles(bs))| == |first| + |bs|
    ensures NoNul(first) && NoNul(bs) ==> AllCStrings([first] + Singles(bs))
  {
    assert ([first] + Singles(bs))[1..] == Singles(bs);
    ConcatSingles(bs);
  }

  /** The bytes of "hello". */
  const Hello: seq<byte> := [104, 101, 108, 108, 111]

  /** The bytes of "123456789". */
  const Digits: seq<byte> := [49, 50, 51, 52, 53, 54, 55, 56, 57]

  /** On a card whose sectors are all blank, start-up resumes at sector 0;
      a string `first` and eight one-byte strings leave the card untouched;
      the tenth call, one more byte, commits sector 0 holding `first` and the
      nine bytes followed by zeros, and nothing else. */
  lemma OneThenNineBytes(c: Card, first: seq<byte>, bs: seq<byte>)
    requires Valid(c) && Healthy(c) && 0 < |c.sectors| && LogShaped(c, 0)
    requires NoNul(first) && NoNul(bs) && |bs| == 9 && |first| + 9 < BufferSize
    ensures forall k: nat :: IsFirstBlank(c, k) ==> k == 0
    ensures AllCStrings([first] + Singles(bs))
    ensures Run(Fresh(0), c, [first] + Singles(bs[..8])).Ok?
    ensures Run(Fresh(0), c, [first] + Singles(bs[..8])).value.card == c
    ensures Run(Fresh(0), c, [first] + Singles(bs)).Ok?
    ensures Run(Fresh(0), c, [first] + Singles(bs)).value.card.sectors
         == c.sectors[0 := Pad(first + bs, |first| + 9)]
    ensures Run(Fresh(0), c, [first] + Singles(bs)).value.state.cursor == 1
  {
    forall k: nat | IsFirstBlank(c, k) ensures k == 0 {
      FirstBlankOfLogShaped(c, k, 0);
    }
    ConcatAfterOne(first, bs[..8]);
    ConcatAfterOne(first, bs);
    QuietCalls(Fresh(0), c, [first] + Singles(bs[..8]));
    TenthCallCommitsOnce(Fresh(0), c, [first] + Singles(bs));
    assert Pending(Fresh(0)) + Concat([first] + Singles(bs)) == first + bs;
  }

  /** The start-up scenario: on a blank card, "hello" and the one-byte
      strings "1" to "8" leave the card untouched; the tenth call, "9",
      commits sector 0 holding "hello123456789" followed by zeros. */
  lemma HelloScenario(c: Card)
    requires Valid(c) && Healthy(c) && 0 < |c.sectors| && LogShaped(c, 0)
    ensures forall k: nat :: IsFirstBlank(c, k) ==> k == 0
    ensures AllCStrings([Hello] + Singles(Digits))
    ensures Run(Fresh(0), c, [Hello] + Singles(Digits[..8])).Ok?
    ensures Run(Fresh(0), c, [Hello] + Singles(Digits[..8])).value.card == c
    ensures Run(Fresh(0), c, [Hello] + Singles(Digits)).Ok?
    ensures Run(Fresh(0), c, [Hello] + Singles(Digits)).value.card.sectors
         == c.sectors[0 := Pad(Hello + Digits, 14)]
    ensures Run(Fresh(0), c, [Hello] + Singles(Digits)).value.state.cursor == 1
  {
    OneThenNineBytes(c, Hello, Digits);
  }
}
