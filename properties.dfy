/** Properties of the session decoder over whole record streams and buffers. */
module SessionProperties {
  import opened Wire
  import opened Frame
  import opened Session

  /** The session's terminal after the records `rs`, starting from `currtty`:
      the first non-zero terminal among them, unless `currtty` is already set. */
  function TerminalAfter(rs: seq<Record>, currtty: u32): (t: u32)
    // a terminal already fixed is kept
    ensures currtty != 0 ==> t == currtty
    // the terminal is the starting one or the tty of one of the records
    ensures t == currtty || exists i | 0 <= i < |rs| :: t == rs[i].header.tty
  {
    if rs == [] then currtty else TerminalAfter(rs[1..], SessionTty(currtty, rs[0].header.tty))
  }

  /** From an unset terminal, the session's terminal stays 0 exactly when every
      record is on tty 0, and is otherwise the first non-zero tty among them. */
  lemma {:induction false} TerminalAfterFirstNonZero(rs: seq<Record>)
    ensures TerminalAfter(rs, 0) == 0 <==> forall i | 0 <= i < |rs| :: rs[i].header.tty == 0
    ensures TerminalAfter(rs, 0) != 0 ==>
      exists i | 0 <= i < |rs| :: TerminalAfter(rs, 0) == rs[i].header.tty
        && forall j | 0 <= j < i :: rs[j].header.tty == 0
  {
    if rs != [] {
      var tty := rs[0].header.tty;
      if tty == 0 {
        TerminalAfterFirstNonZero(rs[1..]);
        assert TerminalAfter(rs, 0) == TerminalAfter(rs[1..], 0);
        assert forall i | 1 <= i < |rs| :: rs[i].header.tty == rs[1..][i - 1].header.tty;
        if TerminalAfter(rs, 0) != 0 {
          var i :| 0 <= i < |rs[1..]| && TerminalAfter(rs[1..], 0) == rs[1..][i].header.tty
            && forall j | 0 <= j < i :: rs[1..][j].header.tty == 0;
          assert forall j | 0 <= j < i + 1 :: rs[j].header.tty == 0 by {
            forall j | 0 <= j < i + 1 ensures rs[j].header.tty == 0 {
              if j > 0 { assert rs[j] == rs[1..][j - 1]; }
            }
          }
          assert TerminalAfter(rs, 0) == rs[i + 1].header.tty;
        }
      } else {
        assert TerminalAfter(rs, 0) == tty;
      }
    }
  }

  /** Reading a prefix of `rs` is reading its first record, then the rest of the prefix. */
  lemma TerminalAfterPrefix(rs: seq<Record>, i: nat, currtty: u32)
    requires i < |rs|
    ensures TerminalAfter(rs[..i + 1], currtty) == TerminalAfter(rs[1..][..i], SessionTty(currtty, rs[0].header.tty))
  {
    assert rs[..i + 1][1..] == rs[1..][..i];
  }

  /** Event `e` is the event of record `r`, an OUTPUT write. */
  predicate EventOfOutputWrite(e: Event, r: Record) {
    r.header.op == OP_WRITE && r.header.direction == TYPE_OUTPUT && e == OutputEvent(r)
  }

  /** Record `i` of `rs` is on the session's terminal as it stands once that
      record has been read. */
  predicate OnSessionTerminal(rs: seq<Record>, i: nat, currtty: u32)
    requires i < |rs|
  {
    rs[i].header.tty == TerminalAfter(rs[..i + 1], currtty)
  }

  /** Event `e` is the event of an OUTPUT write of `rs` on the session's
      terminal, starting from terminal `currtty`. */
  predicate FromOutputWrite(e: Event, rs: seq<Record>, currtty: u32) {
    exists i | 0 <= i < |rs| :: EventOfOutputWrite(e, rs[i]) && OnSessionTerminal(rs, i, currtty)
  }

  /** Every event of `es` is. */
  predicate FromOutputWrites(es: seq<Event>, rs: seq<Record>, currtty: u32) {
    forall k | 0 <= k < |es| :: FromOutputWrite(es[k], rs, currtty)
  }

  /** An event of the first record, if it is an OUTPUT write on the session's
      terminal, followed by events of the later records. */
  lemma FromOutputWritesCons(rs: seq<Record>, currtty: u32, head: seq<Event>, tail: seq<Event>)
    requires rs != []
    requires head == [] || (head == [OutputEvent(rs[0])] && rs[0].header.op == OP_WRITE
      && rs[0].header.direction == TYPE_OUTPUT && rs[0].header.tty == SessionTty(currtty, rs[0].header.tty))
    requires FromOutputWrites(tail, rs[1..], SessionTty(currtty, rs[0].header.tty))
    ensures FromOutputWrites(head + tail, rs, currtty)
  {
    var tty := SessionTty(currtty, rs[0].header.tty);
    var es := head + tail;
    forall k | 0 <= k < |es|
      ensures FromOutputWrite(es[k], rs, currtty)
    {
      if k < |head| {
        assert es[k] == OutputEvent(rs[0]);
        TerminalAfterPrefix(rs, 0, currtty);
        assert rs[1..][..0] == [];
        assert EventOfOutputWrite(es[k], rs[0]) && OnSessionTerminal(rs, 0, currtty);
      } else {
        assert FromOutputWrite(tail[k - |head|], rs[1..], tty);
        var j :| 0 <= j < |rs[1..]| && EventOfOutputWrite(tail[k - |head|], rs[1..][j])
          && OnSessionTerminal(rs[1..], j, tty);
        assert es[k] == tail[k - |head|] && rs[1..][j] == rs[j + 1];
        TerminalAfterPrefix(rs, j + 1, currtty);
        assert EventOfOutputWrite(es[k], rs[j + 1]) && OnSessionTerminal(rs, j + 1, currtty);
      }
    }
  }

  /** Reference filter that ignores the direction preference: the OUTPUT
      writes on the session's terminal, in stream order, up to the CLOSE on
      that terminal. Every event it lists is the event of such a record. */
  function OutputWrites(rs: seq<Record>, currtty: u32): (es: seq<Event>)
    ensures FromOutputWrites(es, rs, currtty)
  {
    if rs == [] then []
    else
      var h := rs[0].header;
      var tty := SessionTty(currtty, h.tty);
      if h.tty == tty && h.op == OP_CLOSE then []
      else
        var head := if h.tty == tty && h.op == OP_WRITE && h.direction == TYPE_OUTPUT
                    then [OutputEvent(rs[0])] else [];
        var tail := OutputWrites(rs[1..], tty);
        FromOutputWritesCons(rs, currtty, head, tail);
        head + tail
  }

  /** `a` is `b` with some elements left out, order kept. */
  predicate IsSubsequence<T(==)>(a: seq<T>, b: seq<T>)
    decreases |b|
  {
    if a == [] then true
    else if b == [] then false
    else (a[0] == b[0] && IsSubsequence(a[1..], b[1..])) || IsSubsequence(a, b[1..])
  }

  lemma {:induction false} SubsequenceSkip<T>(a: seq<T>, x: seq<T>, b: seq<T>)
    requires IsSubsequence(a, b)
    ensures IsSubsequence(a, x + b)
    decreases |x|
  {
    if x == [] {
      assert x + b == b;
    } else {
      SubsequenceSkip(a, x[1..], b);
      assert (x + b)[1..] == x[1..] + b;
      assert a != [] ==> IsSubsequence(a, (x + b)[1..]);
    }
  }

  lemma {:induction false} SubsequenceKeep<T>(x: seq<T>, a: seq<T>, b: seq<T>)
    requires IsSubsequence(a, b)
    ensures IsSubsequence(x + a, x + b)
    decreases |x|
  {
    if x == [] {
      assert x + a == a && x + b == b;
    } else {
      SubsequenceKeep(x[1..], a, b);
      assert (x + a)[1..] == x[1..] + a;
      assert (x + b)[1..] == x[1..] + b;
      assert (x + a)[0] == (x + b)[0];
    }
  }

  /** Every element of a subsequence occurs in the sequence it was taken from. */
  lemma {:induction false} SubsequenceMembers<T>(a: seq<T>, b: seq<T>)
    requires IsSubsequence(a, b)
    ensures forall x | x in a :: x in b
    decreases |b|
  {
    if a != [] {
      if a[0] == b[0] && IsSubsequence(a[1..], b[1..]) {
        SubsequenceMembers(a[1..], b[1..]);
        assert forall x | x in a :: x == a[0] || x in a[1..];
      } else {
        SubsequenceMembers(a, b[1..]);
      }
    }
  }

  /** The decoder emits, in stream order, a selection of the OUTPUT writes on
      the session's terminal before its CLOSE. */
  lemma {:induction false} EmittedAreOutputWrites(rs: seq<Record>, st: State, s: Settings)
    ensures IsSubsequence(Process(rs, st, s), OutputWrites(rs, st.currtty))
  {
    if rs != [] {
      ProcessCons(rs[0], rs[1..], st, s);
      assert [rs[0]] + rs[1..] == rs;
      match Step(st, rs[0], s)
      case Closed =>
      case Continue(next, emitted) =>
        var h := rs[0].header;
        var head := if h.tty == next.currtty && h.op == OP_WRITE && h.direction == TYPE_OUTPUT
                    then [OutputEvent(rs[0])] else [];
        assert OutputWrites(rs, st.currtty) == head + OutputWrites(rs[1..], next.currtty);
        EmittedAreOutputWrites(rs[1..], next, s);
        assert Process(rs, st, s) == emitted + Process(rs[1..], next, s);
        if emitted == head {
          SubsequenceKeep(head, Process(rs[1..], next, s), OutputWrites(rs[1..], next.currtty));
        } else {
          assert emitted == [];
          assert Process(rs, st, s) == Process(rs[1..], next, s);
          SubsequenceSkip(Process(rs[1..], next, s), head, OutputWrites(rs[1..], next.currtty));
        }
    }
  }

  /** With `bothDirs` the preference plays no part: exactly the OUTPUT writes
      on the session's terminal before its CLOSE are emitted. */
  lemma {:induction false} BothDirsEmitsEveryOutputWrite(rs: seq<Record>, st: State, s: Settings)
    requires s.bothDirs
    ensures Process(rs, st, s) == OutputWrites(rs, st.currtty)
  {
    if rs != [] {
      ProcessCons(rs[0], rs[1..], st, s);
      assert [rs[0]] + rs[1..] == rs;
      if Step(st, rs[0], s).Continue? {
        BothDirsEmitsEveryOutputWrite(rs[1..], Step(st, rs[0], s).next, s);
      }
    }
  }

  /** Without `bothDirs`, once the preference is set the decoder emits every
      OUTPUT write on the session's terminal if the preference is OUTPUT, and
      nothing at all otherwise (in particular when it is INPUT). */
  lemma {:induction false} SettledPreferenceFilters(rs: seq<Record>, st: State, s: Settings)
    requires !s.bothDirs && st.prefdir != 0
    ensures Process(rs, st, s) == if st.prefdir == TYPE_OUTPUT then OutputWrites(rs, st.currtty) else []
  {
    if rs != [] {
      ProcessCons(rs[0], rs[1..], st, s);
      assert [rs[0]] + rs[1..] == rs;
      if Step(st, rs[0], s).Continue? {
        SettledPreferenceFilters(rs[1..], Step(st, rs[0], s).next, s);
      }
    }
  }

  /** The state in which decoding of `rs` from `st` ends: after the last
      record, or just before the CLOSE that stops it. */
  function StateAfter(rs: seq<Record>, st: State, s: Settings): (final: State) {
    if rs == [] then st
    else match Step(st, rs[0], s)
      case Closed => st
      case Continue(next, _) => StateAfter(rs[1..], next, s)
  }

  /** Once the session's terminal is fixed, a record on another terminal is
      ignored outright: dropping it changes neither events nor state. */
  lemma ForeignRecordIgnored(r: Record, rs: seq<Record>, st: State, s: Settings)
    requires st.currtty != 0 && r.header.tty != st.currtty
    ensures Process([r] + rs, st, s) == Process(rs, st, s)
    ensures StateAfter([r] + rs, st, s) == StateAfter(rs, st, s)
  {
    ProcessCons(r, rs, st, s);
    assert ([r] + rs)[1..] == rs;
  }

  /** Once set, the preferred direction and the session's terminal stay put
      for the rest of the decode. */
  lemma {:induction false} SettledStateKept(rs: seq<Record>, st: State, s: Settings)
    ensures st.prefdir != 0 ==> StateAfter(rs, st, s).prefdir == st.prefdir
    ensures st.currtty != 0 ==> StateAfter(rs, st, s).currtty == st.currtty
  {
    if rs != [] && Step(st, rs[0], s).Continue? {
      SettledStateKept(rs[1..], Step(st, rs[0], s).next, s);
    }
  }

  /** Decoding ends at a CLOSE on the session's terminal (not at the end of the bytes). */
  predicate StopsAtClose(rs: seq<Record>, st: State, s: Settings) {
    rs != [] &&
    match Step(st, rs[0], s)
    case Closed => true
    case Continue(next, _) => StopsAtClose(rs[1..], next, s)
  }

  lemma {:induction false} CloseIgnoresTrailingRecords(buf: seq<byte>, extra: seq<byte>, st: State, s: Settings)
    requires StopsAtClose(Frames(buf), st, s)
    ensures Process(Frames(buf + extra), st, s) == Process(Frames(buf), st, s)
    decreases |buf|
  {
    var (rec, used) := ReadRecord(buf).value;
    ReadRecordExtended(buf, extra);
    var (rec', used') := ReadRecord(buf + extra).value;
    var later := Frames(buf[used..]);
    var later' := Frames((buf + extra)[used'..]);
    assert Frames(buf) == [rec] + later;
    assert Frames(buf + extra) == [rec'] + later';
    ProcessCons(rec, later, st, s);
    ProcessCons(rec', later', st, s);
    if Step(st, rec, s).Continue? {
      assert later != [];
      assert used < |buf|;
      assert rec' == rec && used' == used;
      assert (buf + extra)[used..] == buf[used..] + extra;
      CloseIgnoresTrailingRecords(buf[used..], extra, Step(st, rec, s).next, s);
    }
  }

  /** A CLOSE on the session's terminal ends decoding: whatever bytes follow
      the log do not change the events. */
  lemma CloseEndsDecoding(buf: seq<byte>, extra: seq<byte>, s: Settings)
    requires StopsAtClose(Frames(buf), Initial, s)
    ensures Decode(buf + extra, s) == Decode(buf, s)
  {
    CloseIgnoresTrailingRecords(buf, extra, Initial, s);
  }

  /** Every decoded event is the event of an OUTPUT write in the log on the
      session's terminal, and the events keep the order of those writes. */
  lemma DecodedEventsAreOutputWrites(buf: seq<byte>, s: Settings)
    ensures IsSubsequence(Decode(buf, s), OutputWrites(Frames(buf), 0))
    ensures forall e | e in Decode(buf, s) :: e.direction == "output" && FromOutputWrite(e, Frames(buf), 0)
  {
    var rs, es := Frames(buf), Decode(buf, s);
    var ws := OutputWrites(rs, 0);
    EmittedAreOutputWrites(rs, Initial, s);
    SubsequenceMembers(es, ws);
    forall e | e in es
      ensures e.direction == "output" && FromOutputWrite(e, rs, 0)
    {
      var k :| 0 <= k < |ws| && ws[k] == e;
      assert FromOutputWrite(ws[k], rs, 0);
      var i :| 0 <= i < |rs| && EventOfOutputWrite(ws[k], rs[i]) && OnSessionTerminal(rs, i, 0);
    }
  }
}
