/** Whole-log scenarios: small logs built with the encoder, and what the
    decoder makes of them. */
module SessionScenarios {
  import opened Wire
  import opened Frame
  import opened Session
  import opened SessionProperties

  /** The bytes of the text "hello". */
  const Hello: seq<byte> := [0x68, 0x65, 0x6c, 0x6c, 0x6f]

  function Write(tty: u32, direction: i32, payload: seq<byte>): (r: Record)
    requires |payload| < 0x8000_0000
    ensures WellFormed(r)
  {
    Record(Header(OP_WRITE, tty, |payload|, direction, 0, 0), payload)
  }

  function Close(tty: u32): (r: Record)
    ensures WellFormed(r)
  {
    Record(Header(OP_CLOSE, tty, 0, 0, 0, 0), [])
  }

  /** Decoding the encoding of well-formed records is processing them. */
  lemma DecodeEncoded(rs: seq<Record>, s: Settings)
    requires forall i | 0 <= i < |rs| :: WellFormed(rs[i])
    ensures Decode(EncodeRecords(rs), s) == Process(rs, Initial, s)
  {
    var buf := EncodeRecords(rs);
    var none: seq<byte> := [];
    assert Frames(none) == [] by {
      assert ReadRecord(none).None?;
    }
    FramesEncodeRecords(rs, none);
    assert buf + none == buf;
    assert rs + [] == rs;
  }

  /** One OUTPUT write of "hello" at 100 s 500000 us yields that one event,
      unless `inputOnly` without `bothDirs` makes INPUT the preference. */
  lemma HelloWrite(tty: u32, s: Settings)
    ensures Decode(EncodeRecords([Record(Header(OP_WRITE, tty, 5, TYPE_OUTPUT, 100, 500000), Hello)]), s)
            == if s.inputOnly && !s.bothDirs then [] else [Event(Hello, "output", 100, 500000)]
  {
    var rs := [Record(Header(OP_WRITE, tty, 5, TYPE_OUTPUT, 100, 500000), Hello)];
    DecodeEncoded(rs, s);
    ProcessCons(rs[0], [], Initial, s);
    assert [rs[0]] + [] == rs;
  }

  /** An INPUT write followed by a CLOSE on the same terminal yields no
      event, whatever the settings: INPUT writes are never emitted. */
  lemma InputWriteThenClose(tty: u32, payload: seq<byte>, s: Settings)
    requires |payload| < 0x8000_0000
    ensures Decode(EncodeRecords([Write(tty, TYPE_INPUT, payload), Close(tty)]), s) == []
  {
    var rs := [Write(tty, TYPE_INPUT, payload), Close(tty)];
    DecodeEncoded(rs, s);
    var st := Step(Initial, rs[0], s).next;
    ProcessCons(rs[0], rs[1..], Initial, s);
    ProcessCons(rs[1], [], st, s);
    assert [rs[0]] + rs[1..] == rs;
    assert [rs[1]] + [] == rs[1..];
  }

  /** Under `inputOnly` without `bothDirs`, a first write that is INPUT makes
      OUTPUT the preference: a later OUTPUT write is emitted, a later INPUT
      write is not. */
  lemma InputOnlyInversion(tty: u32, a: seq<byte>, b: seq<byte>, c: seq<byte>, s: Settings)
    requires |a| < 0x8000_0000 && |b| < 0x8000_0000 && |c| < 0x8000_0000
    requires s.inputOnly && !s.bothDirs
    ensures var rs := [Write(tty, TYPE_INPUT, a), Write(tty, TYPE_OUTPUT, b), Write(tty, TYPE_INPUT, c)];
            Decode(EncodeRecords(rs), s) == [OutputEvent(rs[1])]
            && StateAfter(rs, Initial, s).prefdir == TYPE_OUTPUT
  {
    var rs := [Write(tty, TYPE_INPUT, a), Write(tty, TYPE_OUTPUT, b), Write(tty, TYPE_INPUT, c)];
    DecodeEncoded(rs, s);
    var st := Step(Initial, rs[0], s).next;
    assert st == State(tty, TYPE_OUTPUT);
    ProcessCons(rs[0], rs[1..], Initial, s);
    assert [rs[0]] + rs[1..] == rs;
    SettledPreferenceFilters(rs[1..], st, s);
    SettledStateKept(rs[1..], st, s);
    var later := rs[1..];
    assert OutputWrites(later, tty) == [OutputEvent(rs[1])] + OutputWrites(later[1..], tty);
    assert later[1..] == [rs[2]];
    assert OutputWrites([rs[2]], tty) == [] + OutputWrites([], tty);
  }

  /** Before any non-zero terminal is seen the session's terminal is 0, so a
      write on tty 0 counts as on it: it fixes the preference and is emitted,
      and a later INPUT write on the terminal that then becomes the session's
      is filtered out by that preference. */
  lemma TtyZeroWriteFixesPreference(tty: u32, a: seq<byte>, b: seq<byte>, s: Settings)
    requires tty != 0 && |a| < 0x8000_0000 && |b| < 0x8000_0000
    requires !s.inputOnly && !s.bothDirs
    ensures var rs := [Write(0, TYPE_OUTPUT, a), Write(tty, TYPE_INPUT, b)];
            Decode(EncodeRecords(rs), s) == [OutputEvent(rs[0])]
            && StateAfter(rs, Initial, s) == State(tty, TYPE_OUTPUT)
  {
    var rs := [Write(0, TYPE_OUTPUT, a), Write(tty, TYPE_INPUT, b)];
    DecodeEncoded(rs, s);
    var st := Step(Initial, rs[0], s).next;
    assert st == State(0, TYPE_OUTPUT);
    ProcessCons(rs[0], rs[1..], Initial, s);
    ProcessCons(rs[1], [], st, s);
    assert [rs[0]] + rs[1..] == rs;
    assert [rs[1]] + [] == rs[1..];
    assert StateAfter(rs, Initial, s) == StateAfter(rs[1..], st, s);
    assert StateAfter(rs[1..], st, s) == StateAfter([], State(tty, TYPE_OUTPUT), s);
  }
}
