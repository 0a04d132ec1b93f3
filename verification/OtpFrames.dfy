/**
 The OTP application's exchange over HID feature reports: frames cut into seven-byte
 reports with a sequence number, in both directions.
 */
module OtpFrames {
  import opened Basics
  import opened Crc

  const REPORT_DATA: nat := 7
  const FRAME_BUFFER: nat := 70
  const FRAME_REPORTS: nat := 10
  const PAYLOAD: nat := 64

  /** The send side: what is left to send lies behind what has been sent. */
  datatype Sender = Sender(buffer: Bytes, left: nat, current: nat, expected: nat)

  datatype Report = Data(bytes: Bytes, sequence: nat) | Last | StatusReport

  predicate ValidSender(s: Sender) {
    |s.buffer| == FRAME_BUFFER && (s.left > 0 ==> REPORT_DATA * s.current + s.left <= FRAME_BUFFER)
  }

  /** Reports needed for `n` bytes. */
  function Reports(n: nat): nat {
    n / REPORT_DATA + (if n % REPORT_DATA != 0 then 1 else 0)
  }

  /** Closes the frame that is in the buffer and makes it ready to be fetched. */
  function Send(s: Sender, frame: Bytes): Sender
    requires |s.buffer| == FRAME_BUFFER && |frame| + 2 <= FRAME_BUFFER
  {
    Sender(Overlay(s.buffer, 0, frame + Trailer(frame)), |frame| + 2, 0, Reports(|frame| + 2))
  }

  function Chunk(left: nat): nat {
    if left < REPORT_DATA then left else REPORT_DATA
  }

  function Fetch(s: Sender): (Sender, Report)
    requires ValidSender(s)
  {
    if s.left > 0 then
      var n := Chunk(s.left);
      var bytes := s.buffer[REPORT_DATA * s.current..REPORT_DATA * s.current + n];
      (s.(left := s.left - n, current := s.current + 1), Data(bytes + Zeros(REPORT_DATA - n), s.current))
    else if s.current == s.expected && s.expected > 0 then (s.(current := 0, expected := 0), Last)
    else (s, StatusReport)
  }

  function FetchAll(s: Sender, n: nat): (r: (Sender, seq<Report>))
    requires ValidSender(s)
    ensures ValidSender(r.0) && |r.1| == n
  {
    if n == 0 then (s, [])
    else
      var before := FetchAll(s, n - 1);
      var step := Fetch(before.0);
      (step.0, before.1 + [step.1])
  }

  /** What the host puts together from the reports. */
  function Joined(reports: seq<Report>): Bytes {
    if reports == [] then []
    else
      var last := reports[|reports| - 1];
      Joined(reports[..|reports| - 1]) + (if last.Data? then last.bytes else [])
  }

  predicate Numbered(reports: seq<Report>) {
    forall i :: 0 <= i < |reports| ==> reports[i].Data? && reports[i].sequence == i
  }

  lemma JoinedAppend(reports: seq<Report>, bytes: Bytes, sequence: nat)
    ensures Joined(reports + [Data(bytes, sequence)]) == Joined(reports) + bytes
  {
    assert (reports + [Data(bytes, sequence)])[..|reports|] == reports;
  }

  lemma JoinedChunk(buffer: Bytes, at: nat, size: nat, padding: Bytes)
    requires at + size <= |buffer|
    ensures (buffer[..at] + (buffer[at..at + size] + padding))[..at + size] == buffer[..at + size]
  {
  }

  function Min(a: nat, b: nat): nat {
    if a <= b then a else b
  }

  lemma ReportsReach(left: nat, n: nat)
    requires 0 < n <= Reports(left)
    ensures REPORT_DATA * (n - 1) < left
  {
  }

  /** The next report, while there is something left. */
  lemma FetchStep(s: Sender, n: nat)
    requires ValidSender(s) && s.current == 0 && 0 < n && REPORT_DATA * (n - 1) < s.left
    ensures var (at, size) := (REPORT_DATA * (n - 1), Chunk(s.left - REPORT_DATA * (n - 1)));
            var before := s.(current := n - 1, left := s.left - at);
            ValidSender(before) && at + size == Min(REPORT_DATA * n, s.left) &&
            Fetch(before) ==
              (s.(current := n, left := s.left - Min(REPORT_DATA * n, s.left)),
               Data(s.buffer[at..at + size] + Zeros(REPORT_DATA - size), n - 1))
  {
  }

  lemma {:induction false} FetchedPrefix(s: Sender, n: nat)
    requires ValidSender(s) && s.current == 0 && s.left <= FRAME_BUFFER && n <= Reports(s.left)
    ensures var (t, reports) := FetchAll(s, n);
            t == s.(current := n, left := s.left - Min(REPORT_DATA * n, s.left)) &&
            Numbered(reports) && |Joined(reports)| == REPORT_DATA * n &&
            Joined(reports)[..Min(REPORT_DATA * n, s.left)] == s.buffer[..Min(REPORT_DATA * n, s.left)]
  {
    hide Joined, Fetch, Reports;
    if n == 0 {
      NothingJoined();
    } else {
      ReportsReach(s.left, n);
      assert n - 1 <= Reports(s.left);
      FetchedPrefix(s, n - 1);
      FetchStep(s, n);
      var (before, reports) := FetchAll(s, n - 1);
      var at := REPORT_DATA * (n - 1);
      var size := Chunk(s.left - at);
      assert Joined(reports) == s.buffer[..at] by {
        assert Joined(reports)[..at] == Joined(reports);
      }
      JoinedAppend(reports, s.buffer[at..at + size] + Zeros(REPORT_DATA - size), n - 1);
      JoinedChunk(s.buffer, at, size, Zeros(REPORT_DATA - size));
    }
  }

  lemma NothingJoined()
    ensures Joined([]) == []
  {
  }

  /**
   A frame fetched to the end: numbered reports that join to the frame and its trailer, which
   pass the residue check, followed by one closing report.
   */
  lemma FrameArrives(s: Sender, frame: Bytes)
    requires |s.buffer| == FRAME_BUFFER && |frame| + 2 <= FRAME_BUFFER
    ensures var n := Reports(|frame| + 2);
            var (t, reports) := FetchAll(Send(s, frame), n);
            Numbered(reports) && |Joined(reports)| >= |frame| + 2 &&
            Joined(reports)[..|frame| + 2] == frame + Trailer(frame) &&
            Fcs(Joined(reports)[..|frame| + 2]) == GOOD_RESIDUE &&
            Fetch(t).1 == Last && Fetch(Fetch(t).0).1 == StatusReport
  {
    hide Fcs, Trailer, FetchAll, Joined, Fetch;
    ClosedFrameIsGood(frame);
    var sent := Send(s, frame);
    assert sent.buffer[..|frame| + 2] == frame + Trailer(frame);
    FetchedPrefix(sent, Reports(|frame| + 2));
    AllFetched(sent.(current := sent.expected, left := 0));
  }

  lemma AllFetched(s: Sender)
    requires ValidSender(s) && s.left == 0 && s.current == s.expected && s.expected > 0
    ensures Fetch(s) == (s.(current := 0, expected := 0), Last) && Fetch(Fetch(s).0).1 == StatusReport
  {
  }

  // ---------- Receiving ----------

  /** What the last byte of a report from the host asks for. */
  datatype Incoming = Reset | Part(sequence: nat) | Ignored

  function Kind(control: bv8): Incoming {
    if control == 0xFF then Reset
    else if control & 0x80 == 0 || control & 0x1F >= 10 then Ignored
    else Part((control & 0x1F) as nat)
  }

  lemma KindOfPart(sequence: bv8)
    requires sequence < 10
    ensures Kind(0x80 | sequence) == Part(sequence as nat)
  {
    assert (0x80 | sequence) & 0x1F == sequence && (0x80 | sequence) & 0x80 != 0 && 0x80 | sequence != 0xFF;
  }

  /** A report resets if all its bits are set, else it is a part if its top bit is, numbered by its last five. */
  lemma KindIs(control: bv8)
    ensures Kind(control) == Reset <==> !control == 0
    ensures Kind(control).Part? <==> control != 0xFF && control & 0x80 != 0 && control & 0x1F < 10
    ensures Kind(control).Part? ==> Kind(control).sequence == (control & 0x1F) as nat
  {
  }

  lemma PartInRange(control: bv8)
    ensures Kind(control).Part? ==> Kind(control).sequence < FRAME_REPORTS
  {
  }

  /** Ten reports make a frame; the tenth makes it complete. */
  function Receive(buffer: Bytes, sequence: nat, bytes: Bytes): Bytes
    requires |buffer| == FRAME_BUFFER && sequence < FRAME_REPORTS && |bytes| == REPORT_DATA
  {
    Overlay(if sequence == 0 then Zeros(FRAME_BUFFER) else buffer, REPORT_DATA * sequence, bytes)
  }

  /** The first part clears what was there, any other leaves the rest of the frame. */
  lemma PartTaken(buffer: Bytes, sequence: nat, bytes: Bytes, i: nat)
    requires |buffer| == FRAME_BUFFER && sequence < FRAME_REPORTS && |bytes| == REPORT_DATA && i < FRAME_BUFFER
    ensures var r := Receive(buffer, sequence, bytes);
            |r| == FRAME_BUFFER &&
            r[i] ==
              if i / REPORT_DATA == sequence then bytes[i % REPORT_DATA] else if sequence == 0 then 0 else buffer[i]
  {
  }

  /** The reports `0` to `n - 1` of a frame, in order. */
  function ReceiveAll(buffer: Bytes, frame: Bytes, n: nat): (r: Bytes)
    requires |buffer| == FRAME_BUFFER && |frame| == FRAME_BUFFER && n <= FRAME_REPORTS
    ensures |r| == FRAME_BUFFER
  {
    if n == 0 then buffer
    else
      Receive(ReceiveAll(buffer, frame, n - 1), n - 1, frame[REPORT_DATA * (n - 1)..REPORT_DATA * n])
  }

  lemma {:induction false} FrameIsReceived(buffer: Bytes, frame: Bytes, n: nat)
    requires |buffer| == FRAME_BUFFER && |frame| == FRAME_BUFFER && n <= FRAME_REPORTS
    ensures ReceiveAll(buffer, frame, n)[..REPORT_DATA * n] == frame[..REPORT_DATA * n]
    ensures n == FRAME_REPORTS ==> ReceiveAll(buffer, frame, n) == frame
  {
    if n > 0 {
      FrameIsReceived(buffer, frame, n - 1);
      assert frame[..REPORT_DATA * n] == frame[..REPORT_DATA * (n - 1)] + frame[REPORT_DATA * (n - 1)..REPORT_DATA * n];
    }
  }

  // ---------- The procedures ----------

  class Keyboard {
    var tx: array<bv8>
    var sendSize: nat
    var currentSeq: nat
    var expectedSeq: nat
    var rx: array<bv8>

    ghost predicate Valid()
      reads this, tx, rx
    {
      tx.Length == FRAME_BUFFER && rx.Length == FRAME_BUFFER && tx != rx && ValidSender(Sending())
    }

    ghost function Sending(): Sender
      reads this, tx
    {
      Sender(tx[..], sendSize, currentSeq, expectedSeq)
    }

    constructor ()
      ensures Valid() && fresh(tx) && fresh(rx) && Sending() == Sender(Zeros(FRAME_BUFFER), 0, 0, 0)
    {
      tx := new bv8[FRAME_BUFFER](_ => 0);
      rx := new bv8[FRAME_BUFFER](_ => 0);
      sendSize, currentSeq, expectedSeq := 0, 0, 0;
    }

    method CopyIn(to: array<bv8>, at: nat, bytes: Bytes)
      requires at + |bytes| <= to.Length
      modifies to
      ensures to[..] == Overlay(old(to[..]), at, bytes)
    {
      for i := 0 to |bytes|
        invariant to[..at] == old(to[..at])
        invariant forall k :: 0 <= k < i ==> to[at + k] == bytes[k]
        invariant to[at + |bytes|..] == old(to[at + |bytes|..])
      {
        to[at + i] := bytes[i];
      }
      assert to[at..at + |bytes|] == bytes;
    }

    method SendFrame(frame: Bytes)
      requires Valid() && |frame| + 2 <= FRAME_BUFFER
      modifies this`sendSize, this`currentSeq, this`expectedSeq, tx
      ensures Valid() && Sending() == Send(old(Sending()), frame) && rx[..] == old(rx[..])
    {
      hide Fcs, Complement;
      var crc := CalculateCrc(frame);
      ClosedFrameIsGood(frame);
      CopyIn(tx, 0, frame + Complement(crc));
      sendSize := |frame| + 2;
      expectedSeq := sendSize / 7;
      if sendSize % 7 != 0 {
        expectedSeq := expectedSeq + 1;
      }
      currentSeq := 0;
    }

    method GetReport() returns (report: Report)
      requires Valid()
      modifies this`sendSize, this`currentSeq, this`expectedSeq
      ensures Valid() && (Sending(), report) == Fetch(old(Sending()))
    {
      if sendSize > 0 {
        var sequence := currentSeq;
        currentSeq := currentSeq + 1;
        var n := if sendSize < 7 then sendSize else 7;
        var bytes := tx[7 * sequence..7 * sequence + n] + Zeros(7 - n);
        sendSize := sendSize - n;
        return Data(bytes, sequence);
      }
      if currentSeq == expectedSeq && expectedSeq > 0 {
        currentSeq, expectedSeq := 0, 0;
        return Last;
      }
      report := StatusReport;
    }

    /**
     Takes one report from the host: a reset empties the send side, a part of a frame goes to its
     place, anything else is ignored. The last part yields the payload if its check sequence,
     sent plain, is right.
     */
    method SetReport(control: bv8, bytes: Bytes) returns (payload: Option<Bytes>)
      requires Valid() && |bytes| == REPORT_DATA
      modifies this`sendSize, this`currentSeq, this`expectedSeq, tx, rx
      ensures Valid()
      ensures Sending() == if Kind(control).Reset? then Sender(Zeros(FRAME_BUFFER), 0, 0, 0) else old(Sending())
      ensures Kind(control).Part? ==> Kind(control).sequence < FRAME_REPORTS
      ensures rx[..] == if Kind(control).Part? then Receive(old(rx[..]), Kind(control).sequence, bytes) else old(rx[..])
      ensures payload ==
        if Kind(control) == Part(FRAME_REPORTS - 1) &&
          rx[PAYLOAD + 1..PAYLOAD + 3] == [Low(Fcs(rx[..PAYLOAD])), High(Fcs(rx[..PAYLOAD]))]
        then Some(rx[..PAYLOAD]) else None
    {
      hide Fcs, Low, High, Kind, Receive;
      PartInRange(control);
      payload := None;
      var kind := Classify(control);
      match kind
      case Reset => ResetSender();
      case Part(sequence) => payload := TakePart(sequence, bytes);
      case Ignored =>
    }

    method Classify(control: bv8) returns (kind: Incoming)
      ensures kind == Kind(control)
    {
      if control == 0xFF {
        return Reset;
      }
      if control & 0x80 != 0 {
        var sequence := control & 0x1F;
        if sequence < 10 {
          return Part(sequence as nat);
        }
      }
      kind := Ignored;
    }

    method ResetSender()
      requires Valid()
      modifies this`sendSize, this`currentSeq, this`expectedSeq, tx
      ensures Valid() && Sending() == Sender(Zeros(FRAME_BUFFER), 0, 0, 0) && rx[..] == old(rx[..])
    {
      sendSize, currentSeq, expectedSeq := 0, 0, 0;
      for i := 0 to tx.Length
        invariant Valid() && sendSize == currentSeq == expectedSeq == 0 && rx[..] == old(rx[..])
        invariant forall k :: 0 <= k < i ==> tx[k] == 0
      {
        tx[i] := 0;
      }
    }

    method TakePart(sequence: nat, bytes: Bytes) returns (payload: Option<Bytes>)
      requires Valid() && sequence < FRAME_REPORTS && |bytes| == REPORT_DATA
      modifies rx
      ensures Valid() && Sending() == old(Sending()) && rx[..] == Receive(old(rx[..]), sequence, bytes)
      ensures payload ==
        if sequence == FRAME_REPORTS - 1 &&
          rx[PAYLOAD + 1..PAYLOAD + 3] == [Low(Fcs(rx[..PAYLOAD])), High(Fcs(rx[..PAYLOAD]))]
        then Some(rx[..PAYLOAD]) else None
    {
      hide Fcs, Low, High;
      if sequence == 0 {
        ClearReceived();
      }
      CopyIn(rx, 7 * sequence, bytes);
      payload := None;
      if sequence == 9 {
        var crc := CalculateCrc(rx[..PAYLOAD]);
        assert rx[PAYLOAD + 1..PAYLOAD + 3] == [rx[PAYLOAD + 1], rx[PAYLOAD + 2]];
        if rx[PAYLOAD + 1] == Low(crc) && rx[PAYLOAD + 2] == High(crc) {
          payload := Some(rx[..PAYLOAD]);
        } else {
          assert [rx[PAYLOAD + 1], rx[PAYLOAD + 2]] != [Low(crc), High(crc)];
        }
      }
    }

    method ClearReceived()
      requires Valid()
      modifies rx
      ensures Valid() && rx[..] == Zeros(FRAME_BUFFER)
    {
      for i := 0 to rx.Length
        invariant Valid()
        invariant forall k :: 0 <= k < i ==> rx[k] == 0
      {
        rx[i] := 0;
      }
    }
  }
}
