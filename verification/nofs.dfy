/** NoFS ("no file system"), the append-only log layer of src/modules/nofs.h.

    Strings are appended to a one-sector RAM buffer; the buffer is committed to
    the sector at the write cursor when it becomes full, and otherwise only on
    every tenth `nofs_writeString` call. At start-up the cursor is recovered as
    the first blank sector of the card. The layer offers no way to read the log.

    Conventions of this model, where the header is silent:
    - a blank (never written) sector is one whose bytes are all zero;
    - strings are C strings, so they contain no zero byte, and a committed
      sector is its payload followed by zero padding;
    - a tenth-call commit with an empty buffer writes nothing.
 */
module NoFS {
  import opened Sdmmc

  /** `NOFS_BUFFER_SIZE`: the buffer holds exactly one sector. */
  const BufferSize: nat := 512

  /** `NOFS_WRITE_BUFFER_AFTER_NTH_COMMAND`. */
  const WriteAfterNth: nat := 10

  /** The layer's private state: the buffer bytes, how many of them are
      pending, how many `nofs_writeString` calls since the last periodic
      commit, and the sector the next commit lands on. */
  datatype State = State(buffer: seq<byte>, fill: nat, count: nat, cursor: nat)

  /** The state of the layer together with the card it writes to. */
  datatype Step = Step(state: State, card: Card)

  /** A C string: no byte of it is the terminating NUL. */
  predicate NoNul(s: seq<byte>) {
    forall i :: 0 <= i < |s| ==> s[i] != 0
  }

  /** The bytes waiting in the buffer. */
  function Pending(st: State): seq<byte>
    requires st.fill <= |st.buffer|
  {
    st.buffer[..st.fill]
  }

  /** Between calls: the buffer is one sector long and never full, the call
      counter is below the threshold, and the pending bytes are string bytes. */
  predicate Inv(st: State) {
    && |st.buffer| == BufferSize
    && st.fill < BufferSize
    && st.count < WriteAfterNth
    && NoNul(Pending(st))
  }

  /** A sector nobody has written: all zero. */
  predicate Blank(sector: seq<byte>) {
    forall i :: 0 <= i < |sector| ==> sector[i] == 0
  }

  /** `k` is the first blank sector of the card, or the end of the card when
      no sector is blank. */
  predicate IsFirstBlank(c: Card, k: nat) {
    && k <= |c.sectors|
    && (forall j :: 0 <= j < k ==> !Blank(c.sectors[j]))
    && (k < |c.sectors| ==> Blank(c.sectors[k]))
  }

  /** The shape the layer leaves a card in: sectors below `k` written,
      sectors from `k` on blank. */
  predicate LogShaped(c: Card, k: nat) {
    && k <= |c.sectors|
    && (forall j :: 0 <= j < k ==> !Blank(c.sectors[j]))
    && (forall j :: k <= j < |c.sectors| ==> Blank(c.sectors[j]))
  }

  /** No sector of the card fails. */
  predicate Healthy(c: Card) {
    forall j :: 0 <= j < |c.sectors| ==> j !in c.faulty
  }

  /** Sector `j` exists and does not fail. */
  predicate Usable(c: Card, j: nat) {
    j < |c.sectors| && j !in c.faulty
  }

  /** Every sector in `[from, to)` is usable. */
  predicate Writable(c: Card, from: nat, to: nat) {
    forall j: nat :: from <= j < to ==> Usable(c, j)
  }

  /** The state right after start-up, resuming at sector `k`. */
  function Fresh(k: nat): (st: State)
    ensures Inv(st) && Pending(st) == [] && st.count == 0 && st.cursor == k
  {
    State(Zeros(BufferSize), 0, 0, k)
  }

  /** `nofs_init`: brings the card up (`cardUp` is the outcome of the driver's
      start-up, which is not modelled) and recovers the cursor as the first
      blank sector. The body scans linearly; the contract fixes only where
      the cursor lands, so any scan order meeting it is a valid refinement. */
  method Init(c: Card, cardUp: bool) returns (r: Result<State>)
    requires Valid(c)
    ensures !cardUp ==> r == Err(InitializationFailed)
    ensures r.Ok? ==> r.value == Fresh(r.value.cursor) && IsFirstBlank(c, r.value.cursor)
    ensures r.Ok? ==> forall k: nat :: LogShaped(c, k) ==> r.value.cursor == k
    ensures cardUp && Healthy(c) ==> r.Ok?
  {
    if !cardUp {
      return Err(InitializationFailed);
    }
    var k := 0;
    while k < |c.sectors|
      invariant k <= |c.sectors|
      invariant forall j :: 0 <= j < k ==> !Blank(c.sectors[j])
    {
      var data := ReadSector(c, k, SectorSize);
      if data.Err? {
        return Err(data.error);
      }
      if Blank(data.value) {
        assert data.value == c.sectors[k];
        forall k': nat | LogShaped(c, k') ensures k == k' {
          FirstBlankOfLogShaped(c, k, k');
        }
        return Ok(Fresh(k));
      }
      assert data.value == c.sectors[k];
      k := k + 1;
    }
    forall k': nat | LogShaped(c, k') ensures k == k' {
      FirstBlankOfLogShaped(c, k, k');
    }
    return Ok(Fresh(k));
  }

  /** The first blank sector is unique, so every successful `Init` on the same
      card recovers the same cursor, however often it is repeated. */
  lemma FirstBlankUnique(c: Card, m1: nat, m2: nat)
    requires IsFirstBlank(c, m1) && IsFirstBlank(c, m2)
    ensures m1 == m2
  {
  }

  /** On a log-shaped card the first blank sector is the boundary of the log. */
  lemma FirstBlankOfLogShaped(c: Card, m: nat, k: nat)
    requires IsFirstBlank(c, m) && LogShaped(c, k)
    ensures m == k
  {
    if m < |c.sectors| {
      assert Blank(c.sectors[m]);
    }
    if k < |c.sectors| {
      assert Blank(c.sectors[k]);
    }
  }

  /** A sector committed with at least one byte of text is never blank, so
      recovery never takes it for free space. */
  lemma CommittedSectorNotBlank(input: seq<byte>, count: nat)
    requires 0 < count <= |input| && count <= SectorSize
    requires NoNul(input[..count])
    ensures !Blank(Pad(input, count))
  {
    assert Pad(input, count)[0] == input[..count][0];
  }

  /** Commits the buffer: the pending bytes, zero-padded, land in the sector
      at the cursor, which then advances by one; the buffer is emptied. The
      call counter is left alone. */
  function Flush(st: State, c: Card): (r: Result<Step>)
    requires |st.buffer| == BufferSize && st.fill <= BufferSize && Valid(c)
    ensures r.Ok? <==> Usable(c, st.cursor)
    ensures r.Ok? ==> r.value.state == st.(fill := 0, cursor := st.cursor + 1)
    ensures r.Ok? ==> r.value.card == c.(sectors := c.sectors[st.cursor := Pad(st.buffer, st.fill)])
  {
    match WriteSector(c, st.cursor, st.buffer, st.fill)
    case Err(e) => Err(e)
    case Ok(c') =>
      assert c'.sectors == c.sectors[st.cursor := Pad(st.buffer, st.fill)];
      Ok(Step(st.(fill := 0, cursor := st.cursor + 1), c'))
  }

  /** Puts one string byte into the buffer, committing the buffer at once if
      that filled it. */
  function PutByte(st: State, c: Card, b: byte): (r: Result<Step>)
    requires Inv(st) && Valid(c) && b != 0
    ensures r.Ok? <==> (st.fill + 1 == BufferSize ==> Usable(c, st.cursor))
    ensures r.Ok? ==> Inv(r.value.state) && r.value.state.count == st.count
    ensures r.Ok? && st.fill + 1 < BufferSize ==>
      && r.value.card == c
      && r.value.state.cursor == st.cursor
      && Pending(r.value.state) == Pending(st) + [b]
    ensures r.Ok? && st.fill + 1 == BufferSize ==>
      && st.cursor < |c.sectors|
      && r.value.card.sectors == c.sectors[st.cursor := Pending(st) + [b]]
      && !Blank(r.value.card.sectors[st.cursor])
      && r.value.card.faulty == c.faulty
      && r.value.state.cursor == st.cursor + 1
      && r.value.state.fill == 0
  {
    var st1 := st.(buffer := st.buffer[st.fill := b], fill := st.fill + 1);
    assert Pending(st1) == Pending(st) + [b];
    if st1.fill < BufferSize then
      Ok(Step(st1, c))
    else
      assert Pad(st1.buffer, st1.fill) == Pending(st) + [b];
      CommittedSectorNotBlank(st1.buffer, st1.fill);
      Flush(st1, c)
  }

  /** Copies a string into the buffer byte by byte, committing every time the
      buffer fills. */
  function Append(st: State, c: Card, s: seq<byte>): (r: Result<Step>)
    requires Inv(st) && Valid(c) && NoNul(s)
    ensures r.Ok? <==> Writable(c, st.cursor, st.cursor + (st.fill + |s|) / BufferSize)
    ensures r.Ok? ==> Inv(r.value.state) && Valid(r.value.card)
    ensures r.Ok? ==> r.value.card.faulty == c.faulty && |r.value.card.sectors| == |c.sectors|
    ensures r.Ok? ==> r.value.state.count == st.count
    ensures r.Ok? ==> r.value.state.cursor == st.cursor + (st.fill + |s|) / BufferSize
    ensures r.Ok? ==> r.value.state.fill == (st.fill + |s|) % BufferSize
    ensures r.Ok? && st.fill + |s| < BufferSize ==>
      r.value.card == c && Pending(r.value.state) == Pending(st) + s
    ensures r.Ok? ==> r.value.state.cursor == st.cursor || r.value.state.cursor <= |c.sectors|
    decreases |s|
  {
    if |s| == 0 then
      Ok(Step(st, c))
    else
      var end := st.cursor + (st.fill + |s|) / BufferSize;
      if st.fill + 1 < BufferSize then
        match PutByte(st, c, s[0])
        case Err(e) => Err(e)
        case Ok(step) =>
          assert Pending(st) + s == Pending(st) + [s[0]] + s[1..];
          Append(step.state, step.card, s[1..])
      else
        DivideAfterSector(|s| - 1);
        WritableSplit(c, st.cursor, end);
        match PutByte(st, c, s[0])
        case Err(e) => Err(e)
        case Ok(step) =>
          WritableSameShape(c, step.card, st.cursor + 1, end);
          Append(step.state, step.card, s[1..])
  }

  /** `c'` is `c` with sectors `[lo, hi)` newly committed, each of them
      holding data, and every other sector as it was. */
  predicate CommitsOnly(c: Card, c': Card, lo: nat, hi: nat) {
    && |c'.sectors| == |c.sectors|
    && c'.faulty == c.faulty
    && (forall j :: 0 <= j < |c.sectors| && (j < lo || j >= hi) ==> c'.sectors[j] == c.sectors[j])
    && (forall j :: lo <= j < hi && j < |c'.sectors| ==> !Blank(c'.sectors[j]))
  }

  lemma CommitsOnlyTrans(c: Card, c1: Card, c2: Card, a: nat, b: nat, d: nat)
    requires a <= b <= d
    requires CommitsOnly(c, c1, a, b) && CommitsOnly(c1, c2, b, d)
    ensures CommitsOnly(c, c2, a, d)
  {
    forall j | a <= j < d && j < |c2.sectors| ensures !Blank(c2.sectors[j]) {
      if j < b {
        assert c2.sectors[j] == c1.sectors[j];
      }
    }
  }

  /** Appending writes only the sectors from the cursor to the new cursor,
      and each of them holds data. */
  lemma {:induction false} AppendCommitsOnly(st: State, c: Card, s: seq<byte>)
    requires Inv(st) && Valid(c) && NoNul(s)
    requires Append(st, c, s).Ok?
    ensures CommitsOnly(c, Append(st, c, s).value.card, st.cursor, Append(st, c, s).value.state.cursor)
    decreases |s|
  {
    if |s| > 0 {
      var step := PutByte(st, c, s[0]).value;
      AppendUnfold(st, c, s);
      AppendCommitsOnly(step.state, step.card, s[1..]);
      var r := Append(step.state, step.card, s[1..]).value;
      assert CommitsOnly(c, step.card, st.cursor, step.state.cursor);
      CommitsOnlyTrans(c, step.card, r.card, st.cursor, step.state.cursor, r.state.cursor);
    }
  }

  /** Appending a non-empty string is putting its first byte, then
      appending the rest. */
  lemma AppendUnfold(st: State, c: Card, s: seq<byte>)
    requires Inv(st) && Valid(c) && NoNul(s)
    requires |s| > 0 && PutByte(st, c, s[0]).Ok?
    ensures Append(st, c, s) == Append(PutByte(st, c, s[0]).value.state, PutByte(st, c, s[0]).value.card, s[1..])
  {
  }

  lemma DivideAfterSector(n: nat)
    ensures (BufferSize + n) / BufferSize == 1 + n / BufferSize
    ensures (BufferSize + n) % BufferSize == n % BufferSize
  {
  }

  /** A range of sectors is writable when its first sector is usable and the
      rest of it is writable. */
  lemma WritableSplit(c: Card, from: nat, to: nat)
    requires from < to
    ensures Writable(c, from, to) <==> Usable(c, from) && Writable(c, from + 1, to)
  {
  }

  /** Writability depends only on the card's size and its faulty sectors. */
  lemma WritableSameShape(c: Card, c': Card, from: nat, to: nat)
    requires |c.sectors| == |c'.sectors| && c.faulty == c'.faulty
    ensures Writable(c, from, to) <==> Writable(c', from, to)
  {
    assert forall j: nat :: Usable(c, j) <==> Usable(c', j);
  }

  /** A range is writable when all but its last sector are and the last is usable. */
  lemma WritableSnoc(c: Card, from: nat, to: nat)
    requires from <= to
    ensures Writable(c, from, to + 1) <==> Writable(c, from, to) && Usable(c, to)
  {
  }

  /** A writable range stays writable when shortened at its end. */
  lemma WritableShrink(c: Card, from: nat, to: nat, to': nat)
    requires to' <= to
    ensures Writable(c, from, to) ==> Writable(c, from, to')
  {
  }

  /** How many sectors a call of `nofs_writeString` with `s` commits. */
  function Commits(st: State, s: seq<byte>): nat {
    var total := st.fill + |s|;
    total / BufferSize
      + (if st.count + 1 == WriteAfterNth && total % BufferSize != 0 then 1 else 0)
  }

  /** `nofs_writeString`: appends the string, counts the call, and on every
      tenth call commits whatever is pending and restarts the count. It
      succeeds exactly when every sector it commits to exists and works. */
  function WriteString(st: State, c: Card, s: seq<byte>): (r: Result<Step>)
    requires Inv(st) && Valid(c) && NoNul(s)
    ensures r.Ok? <==> Writable(c, st.cursor, st.cursor + Commits(st, s))
    ensures r.Ok? ==> Inv(r.value.state) && Valid(r.value.card)
    ensures r.Ok? ==> r.value.card.faulty == c.faulty && |r.value.card.sectors| == |c.sectors|
    ensures r.Ok? ==> r.value.state.count == (st.count + 1) % WriteAfterNth
    ensures r.Ok? ==> r.value.state.cursor == st.cursor + Commits(st, s)
    ensures r.Ok? && st.count + 1 == WriteAfterNth ==> r.value.state.fill == 0
    ensures r.Ok? && st.count + 1 < WriteAfterNth ==> r.value.state.fill == (st.fill + |s|) % BufferSize
    ensures r.Ok? ==> r.value.state.cursor == st.cursor || r.value.state.cursor <= |c.sectors|
  {
    var appended := st.cursor + (st.fill + |s|) / BufferSize;
    WritableShrink(c, st.cursor, st.cursor + Commits(st, s), appended);
    match Append(st, c, s)
    case Err(e) => Err(e)
    case Ok(step) =>
      var n := step.state.count + 1;
      if n < WriteAfterNth then
        Ok(Step(step.state.(count := n), step.card))
      else if step.state.fill == 0 then
        Ok(Step(step.state.(count := 0), step.card))
      else
        WritableSnoc(c, st.cursor, appended);
        match Flush(step.state.(count := 0), step.card)
        case Err(e) => Err(e)
        case Ok(step') => Ok(step')
  }

  /** One `nofs_writeString` call writes only the sectors from the cursor to
      the new cursor, and each of them holds data. */
  lemma WriteStringCommitsOnly(st: State, c: Card, s: seq<byte>)
    requires Inv(st) && Valid(c) && NoNul(s)
    requires WriteString(st, c, s).Ok?
    ensures CommitsOnly(c, WriteString(st, c, s).value.card, st.cursor, WriteString(st, c, s).value.state.cursor)
  {
    var step := Append(st, c, s).value;
    AppendCommitsOnly(st, c, s);
    if step.state.count + 1 == WriteAfterNth && step.state.fill > 0 {
      var r := WriteString(st, c, s).value;
      CommittedSectorNotBlank(step.state.buffer, step.state.fill);
      assert CommitsOnly(step.card, r.card, step.state.cursor, r.state.cursor);
      CommitsOnlyTrans(c, step.card, r.card, st.cursor, step.state.cursor, r.state.cursor);
    }
  }
}
