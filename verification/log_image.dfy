/** The card read as a log: what a reader with direct access to the sectors
    recovers from the committed sectors, and the proof that the NoFS layer
    neither loses nor duplicates a byte of what it is given.
 */
module LogImage {
  import opened Sdmmc
  import opened NoFS

  /** The text held by one sector: its bytes up to the first NUL. */
  function Payload(sector: seq<byte>): (p: seq<byte>)
    ensures |p| <= |sector| && p == sector[..|p|]
    ensures NoNul(p)
    ensures |p| < |sector| ==> sector[|p|] == 0
    decreases |sector|
  {
    if |sector| == 0 || sector[0] == 0 then [] else [sector[0]] + Payload(sector[1..])
  }

  /** The text held by sectors `[lo, hi)`, in sector order. */
  function Log(sectors: seq<seq<byte>>, lo: nat, hi: nat): seq<byte>
    requires hi <= |sectors|
    decreases hi
  {
    if hi <= lo then [] else Log(sectors, lo, hi - 1) + Payload(sectors[hi - 1])
  }

  /** A committed sector gives back exactly the bytes that were committed:
      the zero padding is never mistaken for text, and no text is cut. */
  lemma PayloadOfPad(input: seq<byte>, count: nat)
    requires count <= |input| && count <= SectorSize
    requires NoNul(input[..count])
    ensures Payload(Pad(input, count)) == input[..count]
  {
    PayloadStops(Pad(input, count), count);
  }

  /** The payload ends exactly at the first NUL byte, or at the end of the
      sector when there is none. */
  lemma {:induction false} PayloadStops(sector: seq<byte>, k: nat)
    requires k <= |sector|
    requires forall i :: 0 <= i < k ==> sector[i] != 0
    requires k < |sector| ==> sector[k] == 0
    ensures Payload(sector) == sector[..k]
    decreases k
  {
    if k > 0 {
      PayloadStops(sector[1..], k - 1);
      assert sector[..k] == [sector[0]] + sector[1..][..k - 1];
    }
  }

  /** The log over a range depends only on the sectors in that range. */
  lemma {:induction false} LogFrame(s: seq<seq<byte>>, s': seq<seq<byte>>, lo: nat, hi: nat)
    requires hi <= |s| && hi <= |s'|
    requires forall j :: lo <= j < hi ==> s[j] == s'[j]
    ensures Log(s, lo, hi) == Log(s', lo, hi)
    decreases hi
  {
    if hi > lo {
      LogFrame(s, s', lo, hi - 1);
    }
  }

  /** A flush appends exactly the pending bytes to the log. */
  lemma FlushKeepsEveryByte(st: State, c: Card, lo: nat)
    requires |st.buffer| == BufferSize && st.fill <= BufferSize && Valid(c)
    requires NoNul(Pending(st))
    requires lo <= st.cursor
    requires Flush(st, c).Ok?
    ensures Log(Flush(st, c).value.card.sectors, lo, st.cursor + 1)
         == Log(c.sectors, lo, st.cursor) + Pending(st)
  {
    var c' := Flush(st, c).value.card;
    LogFrame(c.sectors, c'.sectors, lo, st.cursor);
    PayloadOfPad(st.buffer, st.fill);
  }

  /** Appending a string moves its bytes, in order, into the committed
      sectors and the buffer: log plus pending grows by exactly `s`. */
  lemma {:induction false} AppendKeepsEveryByte(st: State, c: Card, s: seq<byte>, lo: nat)
    requires Inv(st) && Valid(c) && NoNul(s)
    requires lo <= st.cursor <= |c.sectors|
    requires Append(st, c, s).Ok?
    ensures Append(st, c, s).value.state.cursor <= |c.sectors|
    ensures Log(Append(st, c, s).value.card.sectors, lo, Append(st, c, s).value.state.cursor)
            + Pending(Append(st, c, s).value.state)
         == Log(c.sectors, lo, st.cursor) + Pending(st) + s
    decreases |s|
  {
    if |s| > 0 {
      var step := PutByte(st, c, s[0]).value;
      AppendUnfold(st, c, s);
      PutByteKeepsEveryByte(st, c, s[0], lo);
      AppendKeepsEveryByte(step.state, step.card, s[1..], lo);
      ConsBytes(Log(c.sectors, lo, st.cursor) + Pending(st), s);
    }
  }

  lemma ConsBytes(prefix: seq<byte>, s: seq<byte>)
    requires |s| > 0
    ensures prefix + [s[0]] + s[1..] == prefix + s
  {
    assert [s[0]] + s[1..] == s;
  }

  /** One byte put into the buffer: log plus pending grows by that byte. */
  lemma PutByteKeepsEveryByte(st: State, c: Card, b: byte, lo: nat)
    requires Inv(st) && Valid(c) && b != 0
    requires lo <= st.cursor <= |c.sectors|
    requires PutByte(st, c, b).Ok?
    ensures PutByte(st, c, b).value.state.cursor <= |c.sectors|
    ensures Log(PutByte(st, c, b).value.card.sectors, lo, PutByte(st, c, b).value.state.cursor)
            + Pending(PutByte(st, c, b).value.state)
         == Log(c.sectors, lo, st.cursor) + Pending(st) + [b]
  {
    var step := PutByte(st, c, b).value;
    if st.fill + 1 == BufferSize {
      var full := Pending(st) + [b];
      PayloadStops(full, |full|);
      LogFrame(c.sectors, step.card.sectors, lo, st.cursor);
    }
  }

  /** One `nofs_writeString` call: log plus pending grows by exactly `s`. */
  lemma WriteStringKeepsEveryByte(st: State, c: Card, s: seq<byte>, lo: nat)
    requires Inv(st) && Valid(c) && NoNul(s)
    requires lo <= st.cursor <= |c.sectors|
    requires WriteString(st, c, s).Ok?
    ensures WriteString(st, c, s).value.state.cursor <= |c.sectors|
    ensures Log(WriteString(st, c, s).value.card.sectors, lo, WriteString(st, c, s).value.state.cursor)
            + Pending(WriteString(st, c, s).value.state)
         == Log(c.sectors, lo, st.cursor) + Pending(st) + s
  {
    AppendKeepsEveryByte(st, c, s, lo);
    var a := Append(st, c, s).value;
    var r := WriteString(st, c, s).value;
    if a.state.count + 1 == WriteAfterNth && a.state.fill > 0 {
      assert r == Flush(a.state.(count := 0), a.card).value;
      FlushKeepsEveryByte(a.state.(count := 0), a.card, lo);
    } else {
      assert r.card == a.card && r.state.cursor == a.state.cursor && Pending(r.state) == Pending(a.state);
    }
  }
}
