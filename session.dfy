/** The session decoder: walks the records of a TTY log, fixes the session's
    terminal and preferred direction, and collects the output writes that
    pass the direction filter. */
module Session {
  import opened Wire
  import opened Frame

  /** Decoder settings. Only `inputOnly` and `bothDirs` influence decoding;
      `tail`, `maxDelay` and `colorify` are accepted and carried unread. */
  datatype Settings = Settings(tail: int, maxDelay: int, inputOnly: bool, bothDirs: bool, colorify: bool)

  /** One emitted event: the payload (kept as bytes, see README), the
      direction tag, and the timestamp as its (sec, usec) pair. */
  datatype Event = Event(data: seq<byte>, direction: string, sec: u32, usec: u32)

  /** `currtty` is the session's terminal and `prefdir` the preferred
      direction; 0 means "not fixed yet" for both. */
  datatype State = State(currtty: u32, prefdir: i32)

  const Initial: State := State(0, 0)

  /** What one record does to the decode: stop it, or carry on from a new
      state having emitted zero or one events. */
  datatype Outcome = Continue(next: State, emitted: seq<Event>) | Closed

  /** The event an output write produces. */
  function OutputEvent(r: Record): (e: Event) {
    Event(r.payload, "output", r.header.sec, r.header.usec)
  }

  /** The session's terminal once a record on terminal `tty` has been seen:
      a non-zero terminal stays, a 0 is replaced by the record's terminal. */
  function SessionTty(currtty: u32, tty: u32): (t: u32)
    ensures t == currtty || t == tty
    ensures currtty != 0 ==> t == currtty
    ensures t == 0 ==> currtty == 0 && tty == 0
  {
    if currtty == 0 then tty else currtty
  }

  /** The preference the first write on the session's terminal establishes,
      including the inversion rule under `inputOnly`. */
  function FirstPreference(direction: i32, inputOnly: bool): (p: i32)
    // without `inputOnly` the first write's own direction is preferred
    ensures !inputOnly ==> p == direction
    // with it, the preference is INPUT or OUTPUT, never the first write's own
    // direction, and OUTPUT exactly when that write was INPUT
    ensures inputOnly ==> (p == TYPE_INPUT || p == TYPE_OUTPUT) && p != direction
    ensures inputOnly ==> (p == TYPE_OUTPUT <==> direction == TYPE_INPUT)
  {
    if !inputOnly then direction
    else if direction == TYPE_INPUT then TYPE_OUTPUT
    else TYPE_INPUT
  }

  /** One iteration of the decode loop on record `r` in state `st`. */
  function Step(st: State, r: Record, s: Settings): (o: Outcome)
    // the session's terminal is fixed by the first non-zero tty and then kept
    ensures o.Continue? ==> o.next.currtty == SessionTty(st.currtty, r.header.tty)
    // decoding stops exactly at a CLOSE on the session's terminal
    ensures o.Closed? <==> r.header.op == OP_CLOSE && r.header.tty == SessionTty(st.currtty, r.header.tty)
    // once set, the preference never changes
    ensures o.Continue? && st.prefdir != 0 ==> o.next.prefdir == st.prefdir
    // only a write on the session's terminal can set it, and the first one does
    ensures o.Continue? && st.prefdir == 0 ==>
      o.next.prefdir == (if r.header.op == OP_WRITE && r.header.tty == o.next.currtty
                         then FirstPreference(r.header.direction, s.inputOnly) else 0)
    // a record on another terminal, or an OPEN/EXEC, emits nothing and leaves the preference alone
    ensures o.Continue? && (r.header.op != OP_WRITE || r.header.tty != o.next.currtty) ==>
      o.emitted == [] && o.next.prefdir == st.prefdir
    // at most one event, and only for an OUTPUT write on the session's terminal
    ensures o.Continue? ==> |o.emitted| <= 1
    ensures o.Continue? && o.emitted != [] ==>
      o.emitted == [OutputEvent(r)] && r.header.op == OP_WRITE && r.header.direction == TYPE_OUTPUT
      && r.header.tty == o.next.currtty
    // without `bothDirs` the write must also be in the preferred direction
    ensures o.Continue? && o.emitted != [] && !s.bothDirs ==> r.header.direction == o.next.prefdir
    // and conversely every OUTPUT write on the session's terminal that is in the
    // (possibly just set) preferred direction, or any such write under `bothDirs`, is emitted
    ensures o.Continue? && r.header.op == OP_WRITE && r.header.tty == o.next.currtty
            && r.header.direction == TYPE_OUTPUT && (s.bothDirs || r.header.direction == o.next.prefdir)
            ==> o.emitted == [OutputEvent(r)]
  {
    var h := r.header;
    var currtty := SessionTty(st.currtty, h.tty);
    if h.tty == currtty && h.op == OP_WRITE then
      var prefdir := if st.prefdir == 0 then FirstPreference(h.direction, s.inputOnly) else st.prefdir;
      var emitted := if (h.direction == prefdir || s.bothDirs) && h.direction == TYPE_OUTPUT
                     then [OutputEvent(r)] else [];
      Continue(State(currtty, prefdir), emitted)
    else if h.tty == currtty && h.op == OP_CLOSE then
      Closed
    else
      Continue(State(currtty, st.prefdir), [])
  }

  /** The events a sequence of records yields from state `st`, in order. */
  function Process(rs: seq<Record>, st: State, s: Settings): (es: seq<Event>)
    ensures |es| <= |rs|
  {
    if rs == [] then []
    else match Step(st, rs[0], s)
      case Closed => []
      case Continue(next, emitted) => emitted + Process(rs[1..], next, s)
  }

  /** Processing a record followed by more records. */
  lemma ProcessCons(r: Record, rs: seq<Record>, st: State, s: Settings)
    ensures Step(st, r, s).Closed? ==> Process([r] + rs, st, s) == []
    ensures Step(st, r, s).Continue? ==>
      Process([r] + rs, st, s) == Step(st, r, s).emitted + Process(rs, Step(st, r, s).next, s)
  {
    assert ([r] + rs)[1..] == rs;
  }

  lemma AppendAssoc<T>(a: seq<T>, b: seq<T>, c: seq<T>)
    ensures (a + b) + c == a + (b + c)
  {
  }

  /** The events a session log yields: its records, processed from the initial state. */
  function Decode(buf: seq<byte>, s: Settings): (es: seq<Event>)
    ensures |buf| < HEADER_SIZE ==> es == []
  {
    Process(Frames(buf), Initial, s)
  }

  /** The decoder loop: reads a header and its payload per iteration, updates
      the terminal and the preference, and appends the events it emits. */
  method ProcessTtySession(sessionData: seq<byte>, settings: Settings) returns (output: seq<Event>)
    ensures output == Decode(sessionData, settings)
  {
    var currtty: u32, prefdir: i32 := 0, 0;
    output := [];
    var pos: nat := 0;
    while true
      invariant pos <= |sessionData|
      invariant output + Process(Frames(sessionData[pos..]), State(currtty, prefdir), settings)
                == Decode(sessionData, settings)
      decreases |sessionData| - pos
    {
      ghost var before, st, start := output, State(currtty, prefdir), pos;
      ghost var emitted: seq<Event> := [];
      var (head, afterHead) := Read(sessionData, pos, HEADER_SIZE);
      if |head| != HEADER_SIZE {
        break;
      }
      var h := ParseHeader(head);
      var (data, next) := Read(sessionData, afterHead, h.length);
      ghost var rec, later := Record(h, data), Frames(sessionData[next..]);
      assert Frames(sessionData[pos..]) == [rec] + later by {
        FramesAt(sessionData, pos);
      }
      ProcessCons(rec, later, st, settings);
      pos := next;

      if currtty == 0 {
        currtty := h.tty;
      }
      if h.tty == currtty && h.op == OP_WRITE {
        if prefdir == 0 {
          prefdir := h.direction;
          if settings.inputOnly {
            prefdir := TYPE_INPUT;
            if h.direction == TYPE_INPUT {
              prefdir := TYPE_OUTPUT;
            }
          }
        }
        if h.direction == prefdir || settings.bothDirs {
          if h.direction == TYPE_OUTPUT {
            output := output + [Event(data, "output", h.sec, h.usec)];
            emitted := [OutputEvent(rec)];
          }
        }
      } else if h.tty == currtty && h.op == OP_CLOSE {
        assert Step(st, rec, settings) == Closed;
        break;
      }
      assert Step(st, rec, settings) == Continue(State(currtty, prefdir), emitted);
      ghost var remaining := Process(later, State(currtty, prefdir), settings);
      assert Process([rec] + later, st, settings) == emitted + remaining;
      assert output == before + emitted;
      AppendAssoc(before, emitted, remaining);
    }
  }
}
