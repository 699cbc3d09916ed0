/**
 * The serial transaction layer of term.c: every command byte travels with a
 * seven-bit complement checksum, data strings with a running XOR of those
 * checksums, and the camera acknowledges a frame by echoing its checksum.
 * `try_connect` walks a fixed ladder of seven baud rates and keeps the first
 * one at which the camera answers the communications test.
 *
 * The tty is an oracle: each write either succeeds or fails, and each read
 * window either delivers a byte in time or times out. Whatever the oracle
 * says is passed in as a parameter, so the model is deterministic.
 */
module Term {
  import opened CStrings

  /** Result of one exchange with the camera (term.h:27-31). */
  datatype TransStatus = TransSucceed | TransBadChsum | TransTimeout

  /** What one 0.1 s read window on the tty produced. */
  datatype Window = InTime(b: bv8) | TimedOut

  /** The communications test command 'E' and its answer 'O' (term.h:35, term.h:38). */
  const CMD_COMM_TEST: bv8 := 0x45
  const ANS_COMM_TEST: bv8 := 0x4F

  /** The baud-rate ladder, lowest first (term.c:50-58). */
  const Speeds: seq<int> := [9600, 19200, 38400, 57600, 115200, 230400, 460800]

  /** `try_connect` gives each speed ten attempts to write the test command. */
  const SEND_TRIES: nat := 10

  /** Size of the static answer buffer of `wait4answer`. */
  const ANSWER_BUFSZ: nat := 128

  /*************************** checksums ***************************/

  /** Checksum of a single byte: its complement, masked to seven bits. */
  function CmdChecksum(cmd: bv8): (r: bv8)
    ensures r < 0x80
    ensures r ^ (cmd & 0x7f) == 0x7f
  {
    !cmd & 0x7f
  }

  /** The two bytes `send_cmd` writes. */
  function CmdFrame(cmd: bv8): seq<bv8>
  {
    [cmd, CmdChecksum(cmd)]
  }

  /** The XOR of all bytes. */
  function XorAll(s: seq<bv8>): bv8
  {
    if s == [] then 0 else XorAll(s[..|s| - 1]) ^ s[|s| - 1]
  }

  /**
   * Running XOR of the single-byte checksums, in the order `send_data` folds
   * them: the low seven bits of the XOR of the bytes, complemented when
   * their number is odd.
   */
  function Checksum(s: seq<bv8>): (r: bv8)
    ensures r < 0x80
    ensures r == (XorAll(s) ^ (if |s| % 2 == 1 then 0xff else 0)) & 0x7f
  {
    if s == [] then 0 else Checksum(s[..|s| - 1]) ^ CmdChecksum(s[|s| - 1])
  }

  /** The bytes `send_data` sends: those before the first NUL. */
  function Payload(buf: seq<bv8>): (p: seq<bv8>)
    ensures |p| <= |buf| && p == buf[..|p|]
    ensures 0 !in p
    ensures |p| < |buf| ==> buf[|p|] == 0
  {
    if buf == [] || buf[0] == 0 then [] else [buf[0]] + Payload(buf[1..])
  }

  /** A one-byte payload carries exactly the checksum `send_cmd` would send. */
  lemma ChecksumOfOneByte(b: bv8)
    ensures Checksum([b]) == CmdChecksum(b)
  {
    assert [b][..0] == [];
  }

  /** The checksum of a concatenation is the XOR of the parts' checksums. */
  lemma {:induction false} ChecksumConcat(a: seq<bv8>, b: seq<bv8>)
    ensures Checksum(a + b) == Checksum(a) ^ Checksum(b)
  {
    if b == [] {
      assert a + b == a;
    } else {
      var b' := b[..|b| - 1];
      assert (a + b)[..|a + b| - 1] == a + b';
      ChecksumConcat(a, b');
    }
  }

  /**
   * Folding the same rule over a payload followed by its own checksum always
   * gives 0x7f: the trailing checksum byte contributes its seven-bit complement.
   */
  lemma ChecksumOfFramedPayload(p: seq<bv8>)
    ensures Checksum(p + [Checksum(p)]) == 0x7f
  {
    ChecksumConcat(p, [Checksum(p)]);
    ChecksumOfOneByte(Checksum(p));
  }

  /** Splits a payload around position `i` for the corruption lemmas. */
  lemma ChecksumAround(p: seq<bv8>, i: nat, x: bv8)
    requires i < |p|
    ensures Checksum(p[i := x]) == Checksum(p[..i]) ^ CmdChecksum(x) ^ Checksum(p[i + 1..])
  {
    var q := p[i := x];
    assert q == p[..i] + [x] + p[i + 1..];
    ChecksumConcat(p[..i] + [x], p[i + 1..]);
    ChecksumConcat(p[..i], [x]);
    ChecksumOfOneByte(x);
  }

  /** Corrupting one byte in any of its low seven bits changes the checksum. */
  lemma ChecksumDetectsLowBits(p: seq<bv8>, i: nat, x: bv8)
    requires i < |p|
    requires (x ^ p[i]) & 0x7f != 0
    ensures Checksum(p[i := x]) != Checksum(p)
  {
    ChecksumAround(p, i, x);
    ChecksumAround(p, i, p[i]);
    assert p[i := p[i]] == p;
  }

  /** A corruption confined to bit 7 of one byte goes unnoticed. */
  lemma ChecksumIgnoresBit7(p: seq<bv8>, i: nat)
    requires i < |p|
    ensures Checksum(p[i := p[i] ^ 0x80]) == Checksum(p)
  {
    ChecksumAround(p, i, p[i] ^ 0x80);
    ChecksumAround(p, i, p[i]);
    assert p[i := p[i]] == p;
  }

  lemma {:induction false} PayloadIsPrefix(buf: seq<bv8>, l: nat)
    requires l <= |buf|
    requires forall k :: 0 <= k < l ==> buf[k] != 0
    requires l < |buf| ==> buf[l] == 0
    ensures Payload(buf) == buf[..l]
  {
    if l > 0 {
      PayloadIsPrefix(buf[1..], l - 1);
      assert buf[..l] == [buf[0]] + buf[1..][..l - 1];
    }
  }

  /** The scan of `send_data` up to the first NUL, summing the checksum as it goes. */
  method PayloadChecksum(buf: seq<bv8>) returns (l: nat, chksum: bv8)
    ensures l <= |buf| && buf[..l] == Payload(buf)
    ensures chksum == Checksum(Payload(buf))
  {
    chksum := 0;
    l := 0;
    while l < |buf| && buf[l] != 0
      invariant 0 <= l <= |buf|
      invariant forall k :: 0 <= k < l ==> buf[k] != 0
      invariant chksum == Checksum(buf[..l])
    {
      assert buf[..l + 1][..l] == buf[..l];
      chksum := chksum ^ (!buf[l] & 0x7f);
      l := l + 1;
    }
    PayloadIsPrefix(buf, l);
  }

  /*************************** connection ladder oracles ***************************/

  /** Some of the ten writes of the test command at ladder index `i` succeeds. */
  predicate SendsAt(writeOk: (nat, nat) -> bool, i: nat)
  {
    exists k :: 0 <= k < SEND_TRIES && writeOk(i, k)
  }

  /**
   * At ladder index `i` the test command got through, the checksum came back
   * in time and the answer that followed was the single byte 'O'.
   */
  predicate AnswersAt(writeOk: (nat, nat) -> bool, ack: nat -> Window, reply: nat -> seq<bv8>, i: nat)
  {
    SendsAt(writeOk, i) && ack(i) == InTime(CmdChecksum(CMD_COMM_TEST)) && reply(i) == [ANS_COMM_TEST]
  }

  /** The bytes written while probing the first `n` ladder speeds. */
  function ProbeLog(writeOk: (nat, nat) -> bool, n: nat): seq<bv8>
  {
    if n == 0 then []
    else ProbeLog(writeOk, n - 1) + (if SendsAt(writeOk, n - 1) then CmdFrame(CMD_COMM_TEST) else [])
  }

  /** A test command got through at one of the first `n` speeds. */
  predicate AnySent(writeOk: (nat, nat) -> bool, n: nat)
  {
    exists j :: 0 <= j < n && SendsAt(writeOk, j)
  }

  /*************************** the serial link ***************************/

  class SerialLink {
    /** `last_chksum` (term.c:71): the checksum the camera must echo next. */
    var lastChksum: bv8
    /** `curspd` (term.c:49): ladder index, -1 before any connection attempt. */
    var curspd: int
    /** Every byte handed to `write_tty` so far, in order. */
    var sent: seq<bv8>

    constructor ()
      ensures lastChksum == 0 && curspd == -1 && sent == []
    {
      lastChksum := 0;
      curspd := -1;
      sent := [];
    }

    /**
     * `get_curspeed` as written: only a negative index is guarded, so the
     * index must lie below the end of the ladder.
     */
    function CurSpeed(): (r: int)
      reads this
      requires curspd < |Speeds|
      ensures r == -1 <==> curspd < 0
      ensures r != -1 ==> r == Speeds[curspd] && r in Speeds
    {
      if curspd < 0 then -1 else Speeds[curspd]
    }

    /** `get_curspeed` with the index checked against both ends of the ladder. */
    function CurSpeedChecked(): (r: int)
      reads this
      ensures r == -1 <==> !(0 <= curspd < |Speeds|)
      ensures r != -1 ==> r == Speeds[curspd] && r in Speeds
    {
      if 0 <= curspd < |Speeds| then Speeds[curspd] else -1
    }

    /** `send_cmd`: the command byte and its checksum, remembered only on success. */
    method SendCmd(cmd: bv8, writeOk: bool) returns (r: int)
      modifies this`sent, this`lastChksum
      ensures r == (if writeOk then 0 else 1)
      ensures writeOk ==> sent == old(sent) + CmdFrame(cmd) && lastChksum == CmdChecksum(cmd)
      ensures !writeOk ==> sent == old(sent) && lastChksum == old(lastChksum)
    {
      var s := [cmd, !cmd & 0x7f];
      if !writeOk {
        return 1;
      }
      sent := sent + s;
      lastChksum := s[1];
      return 0;
    }

    /**
     * `send_data`: the bytes before the first NUL, then their running
     * checksum; `dataOk` and `sumOk` are the outcomes of the two writes.
     */
    method SendData(buf: seq<bv8>, dataOk: bool, sumOk: bool) returns (r: int)
      modifies this
      ensures curspd == old(curspd)
      ensures Payload(buf) == [] ==> r == 1 && sent == old(sent) && lastChksum == old(lastChksum)
      ensures Payload(buf) != [] ==> r == (if dataOk && sumOk then 0 else 1)
      ensures Payload(buf) != [] ==>
        sent == old(sent) + (if dataOk then Payload(buf) + (if sumOk then [Checksum(Payload(buf))] else []) else [])
      ensures Payload(buf) != [] ==>
        lastChksum == (if r == 0 then Checksum(Payload(buf)) else old(lastChksum))
    {
      if |buf| == 0 || buf[0] == 0 {
        return 1;
      }
      var l, chksum := PayloadChecksum(buf);
      if !dataOk {
        return 1;
      }
      sent := sent + buf[..l];
      if !sumOk {
        return 1;
      }
      sent := sent + [chksum];
      lastChksum := chksum;
      return 0;
    }

    /** `wait_checksum`: classify the byte of one read window against `last_chksum`. */
    method WaitChecksum(w: Window) returns (st: TransStatus)
      ensures st == TransTimeout <==> w.TimedOut?
      ensures st == TransSucceed <==> w == InTime(lastChksum)
      ensures st == TransBadChsum <==> w.InTime? && w.b != lastChksum
    {
      if w.TimedOut? {
        return TransTimeout;
      }
      if w.b != lastChksum {
        return TransBadChsum;
      }
      return TransSucceed;
    }

    /**
     * `wait4answer`: after a good checksum, the first non-empty read of up to
     * 128 bytes; `data` is what the line holds when that read happens.
     */
    method Wait4Answer(w: Window, data: seq<bv8>) returns (st: TransStatus, rd: seq<bv8>)
      ensures w.TimedOut? ==> st == TransTimeout && rd == []
      ensures w.InTime? && w.b != lastChksum ==> st == TransBadChsum && rd == []
      ensures w == InTime(lastChksum) && data == [] ==> st == TransTimeout && rd == []
      ensures w == InTime(lastChksum) && data != [] ==> st == TransSucceed
      ensures st == TransSucceed ==> 1 <= |rd| <= ANSWER_BUFSZ && rd <= data
      ensures st == TransSucceed ==> |rd| == |data| || |rd| == ANSWER_BUFSZ
    {
      rd := [];
      st := WaitChecksum(w);
      if st != TransSucceed {
        return;
      }
      var L := if |data| < ANSWER_BUFSZ then |data| else ANSWER_BUFSZ;
      if L == 0 {
        return TransTimeout, [];
      }
      rd := data[..L];
      st := TransSucceed;
    }

    /** Up to ten writes of the test command at ladder index `i`, stopping at the first that gets through. */
    method SendTest(writeOk: (nat, nat) -> bool, i: nat) returns (ok: bool)
      modifies this`sent, this`lastChksum
      ensures ok == SendsAt(writeOk, i)
      ensures sent == old(sent) + (if ok then CmdFrame(CMD_COMM_TEST) else [])
      ensures lastChksum == (if ok then CmdChecksum(CMD_COMM_TEST) else old(lastChksum))
    {
      var ctr := 0;
      while ctr < SEND_TRIES
        invariant 0 <= ctr <= SEND_TRIES
        invariant forall k :: 0 <= k < ctr ==> !writeOk(i, k)
        invariant sent == old(sent) && lastChksum == old(lastChksum)
      {
        var e := SendCmd(CMD_COMM_TEST, writeOk(i, ctr));
        if e == 0 {
          return true;
        }
        ctr := ctr + 1;
      }
      return false;
    }

    /**
     * `try_connect`: probe the ladder from the lowest speed and stop at the
     * first one that answers. `writeOk(i, k)` is the outcome of the k-th
     * write of the test command at index i, `ack(i)` the checksum window and
     * `reply(i)` the answer bytes there.
     */
    method TryConnect(device: Option<string>, writeOk: (nat, nat) -> bool,
                      ack: nat -> Window, reply: nat -> seq<bv8>) returns (speed: int)
      modifies this
      ensures device.None? ==> speed == 0 && curspd == old(curspd)
      ensures device.None? ==> sent == old(sent) && lastChksum == old(lastChksum)
      ensures device.Some? ==> 0 <= curspd <= |Speeds|
      ensures device.Some? ==> forall j :: 0 <= j < curspd ==> !AnswersAt(writeOk, ack, reply, j)
      ensures device.Some? && speed != 0 ==>
        curspd < |Speeds| && speed == Speeds[curspd] && AnswersAt(writeOk, ack, reply, curspd)
      ensures device.Some? && speed == 0 ==> curspd == |Speeds|
      ensures device.Some? ==>
        var tried := if speed == 0 then |Speeds| else curspd + 1;
        sent == old(sent) + ProbeLog(writeOk, tried) &&
        lastChksum == (if AnySent(writeOk, tried) then CmdChecksum(CMD_COMM_TEST) else old(lastChksum))
    {
      if device.None? {
        return 0;
      }
      curspd := 0;
      while curspd < |Speeds|
        invariant 0 <= curspd <= |Speeds|
        invariant forall j :: 0 <= j < curspd ==> !AnswersAt(writeOk, ack, reply, j)
        invariant sent == old(sent) + ProbeLog(writeOk, curspd)
        invariant lastChksum ==
          (if AnySent(writeOk, curspd) then CmdChecksum(CMD_COMM_TEST) else old(lastChksum))
      {
        var i := curspd;
        var ok := SendTest(writeOk, i);
        if !ok {
          assert AnySent(writeOk, i + 1) == AnySent(writeOk, i);
          curspd := curspd + 1;
          continue;
        }
        assert AnySent(writeOk, i + 1);
        var st, rd := Wait4Answer(ack(i), reply(i));
        if st == TransSucceed && |rd| == 1 && rd[0] == ANS_COMM_TEST {
          return Speeds[i];
        }
        curspd := curspd + 1;
      }
      return 0;
    }
  }

  /**
   * A camera that never answers: `try_connect` fails and leaves `curspd` one
   * past the end of the ladder, where `CurSpeed` (as written) may not be
   * evaluated, while the checked lookup reports "not connected".
   */
  method UnansweredConnectOverrunsLadder() returns (speed: int, index: int, checked: int)
    ensures speed == 0 && index == |Speeds| && checked == -1
  {
    var link := new SerialLink();
    speed := link.TryConnect(Some("/dev/ttyS0"), (i: nat, k: nat) => false,
                             (i: nat) => TimedOut, (i: nat) => []);
    index := link.curspd;
    checked := link.CurSpeedChecked();
  }
}
