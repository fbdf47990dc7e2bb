/** One device's test session: the start and stop commands, the `STATUS`
    report parser and the receive loop of `TestWorker.run`. */
module Session {
  import opened Wrappers
  import opened Text
  import opened Net

  /** Seconds added to the test duration to get the receive timeout. */
  const GRACE_SECONDS: nat := 8
  const STOP_COMMAND: string := "TEST;CMD=STOP;"
  const IDLE_MARKER: string := "STATE=IDLE"
  const STATUS_PREFIX: string := "STATUS"

  // ---------------------------------------------------------------------
  // The message layout shared by commands and reports

  /** One `KEY=VALUE` field. */
  datatype Field = Field(key: string, value: string)

  /** Text that can sit in a key or value without being read as a
      delimiter. */
  predicate Plain(s: string)
  {
    ';' !in s && '=' !in s
  }

  predicate PlainFields(fields: seq<Field>)
  {
    forall i :: 0 <= i < |fields| ==> Plain(fields[i].key) && Plain(fields[i].value)
  }

  /** `K=V` */
  function FieldText(f: Field): string
  {
    f.key + "=" + f.value
  }

  /** `;K1=V1;K2=V2...` */
  function EncodeFields(fields: seq<Field>): string
  {
    if fields == [] then ""
    else ";" + FieldText(fields[0]) + EncodeFields(fields[1..])
  }

  /** `<tag>;K1=V1;...;Kn=Vn;`, the layout of every command and report. */
  function Message(tag: string, fields: seq<Field>): string
  {
    tag + EncodeFields(fields) + ";"
  }

  /** The texts `K=V` of the fields, in order. */
  function FieldTexts(fields: seq<Field>): (texts: seq<string>)
    ensures |texts| == |fields|
  {
    if fields == [] then [] else [FieldText(fields[0])] + FieldTexts(fields[1..])
  }

  /** The dictionary the fields make when later keys override earlier ones. */
  function FoldFields(acc: map<string, string>, fields: seq<Field>): map<string, string>
    decreases |fields|
  {
    if fields == [] then acc else FoldFields(acc[fields[0].key := fields[0].value], fields[1..])
  }

  /** Three fields entered into a dictionary, one after the other. */
  lemma FoldThreeFields(acc: map<string, string>, a: Field, b: Field, c: Field)
    ensures FoldFields(acc, [a, b, c]) == acc[a.key := a.value][b.key := b.value][c.key := c.value]
  {
    var m1 := acc[a.key := a.value];
    var m2 := m1[b.key := b.value];
    assert [a, b, c][1..] == [b, c];
    assert [b, c][1..] == [c];
    assert [c][1..] == [];
    assert FoldFields(m2, [c]) == FoldFields(m2[c.key := c.value], []);
    assert FoldFields(m1, [b, c]) == FoldFields(m2, [c]);
    assert FoldFields(acc, [a, b, c]) == FoldFields(m1, [b, c]);
  }

  // ---------------------------------------------------------------------
  // Commands

  /** The start command for a test of `duration` seconds reporting every
      `rate` seconds. */
  function StartCommand(duration: nat, rate: nat): string
  {
    "TEST;CMD=START;DURATION=" + Decimal(duration) + ";RATE=" + Decimal(rate) + ";"
  }

  /** The receive timeout: the test duration plus the grace period. */
  function ReceiveTimeout(duration: nat): nat
  {
    duration + GRACE_SECONDS
  }

  // ---------------------------------------------------------------------
  // The `KEY=VALUE` dictionary

  /** A received report: the raw texts of `TIME`, `MV` and `MA`. */
  datatype Report = Report(time: string, mv: string, ma: string)

  /** The `ValueError` of a part with more than one `=`, and the `KeyError`
      of a missing report key. */
  datatype StatusError = MalformedField(part: string) | MissingKey(key: string)

  /** How the dictionary comprehension treats one part: parts without `=`
      are filtered out, a part splitting into two pieces is a key and a
      value, and anything longer cannot be unpacked into a pair. */
  datatype FieldParse = Skip | Pair(key: string, value: string) | Bad

  function ParseField(part: string): FieldParse
  {
    if '=' !in part then Skip
    else
      var pieces := Split(part, "=");
      if |pieces| == 2 then Pair(pieces[0], pieces[1]) else Bad
  }

  /** A part is read as the pair `(k, v)` exactly when it is `k=v` with no
      further `=`. */
  lemma ParseFieldPair(part: string, k: string, v: string)
    ensures ParseField(part) == Pair(k, v) <==> part == k + "=" + v && '=' !in k && '=' !in v
  {
    if part == k + "=" + v && '=' !in k && '=' !in v {
      assert part[|k|] == '=';
      SplitFirstChar(k, '=', v);
      SplitNoChar(v, '=');
    }
    if ParseField(part) == Pair(k, v) {
      var pieces := Split(part, "=");
      SplitJoin(part, "=");
      assert pieces[1..] == [v];
      assert Join(pieces, "=") == k + "=" + v;
      SplitPiecesFree(part, "=");
      ContainsChar(k, '=');
      ContainsChar(v, '=');
    }
  }

  /** A part fails exactly when it holds two or more `=`. */
  lemma ParseFieldBad(part: string)
    ensures ParseField(part).Bad? <==>
      exists i, j :: 0 <= i < j < |part| && part[i] == '=' && part[j] == '='
  {
    if '=' in part {
      SplitAtFirstChar(part, '=');
      var pieces := Split(part, "=");
      var k := |pieces[0]|;
      var rest := part[k + 1..];
      FirstPiece(part, '=');
      ContainsChar(rest, '=');
      assert pieces[1..] == Split(rest, "=");
      if '=' in rest {
        var j :| 0 <= j < |rest| && rest[j] == '=';
        assert part[k + 1 + j] == '=';
      }
      if exists i, j :: 0 <= i < j < |part| && part[i] == '=' && part[j] == '=' {
        var i, j :| 0 <= i < j < |part| && part[i] == '=' && part[j] == '=';
        assert part[..k] == pieces[0];
        assert k <= i;
        assert rest[j - k - 1] == '=';
      }
    }
  }

  /** `dict(part.split('=') for part in parts if '=' in part)`, entered
      into `acc` from left to right. */
  function AddFields(acc: map<string, string>, parts: seq<string>): Result<map<string, string>, StatusError>
    decreases |parts|
  {
    if parts == [] then Ok(acc)
    else
      match ParseField(parts[0])
      case Skip => AddFields(acc, parts[1..])
      case Pair(k, v) => AddFields(acc[k := v], parts[1..])
      case Bad => Err(MalformedField(parts[0]))
  }

  /** One more part entered into an already built dictionary. */
  function AddField(r: Result<map<string, string>, StatusError>, part: string): Result<map<string, string>, StatusError>
  {
    match r
    case Err(_) => r
    case Ok(m) =>
      match ParseField(part)
      case Skip => Ok(m)
      case Pair(k, v) => Ok(m[k := v])
      case Bad => Err(MalformedField(part))
  }

  /** The dictionary is built left to right: the last part is entered last. */
  lemma {:induction false} AddFieldsSnoc(acc: map<string, string>, parts: seq<string>, part: string)
    ensures AddFields(acc, parts + [part]) == AddField(AddFields(acc, parts), part)
    decreases |parts|
  {
    if parts == [] {
      assert [part][1..] == [];
    } else {
      assert (parts + [part])[0] == parts[0];
      assert (parts + [part])[1..] == parts[1..] + [part];
      match ParseField(parts[0])
      case Skip => AddFieldsSnoc(acc, parts[1..], part);
      case Pair(k, v) => AddFieldsSnoc(acc[k := v], parts[1..], part);
      case Bad =>
    }
  }

  /** Building the dictionary fails exactly when some part holds more than
      one `=`. */
  lemma {:induction false} AddFieldsFails(acc: map<string, string>, parts: seq<string>)
    ensures AddFields(acc, parts).Err? <==> exists i :: 0 <= i < |parts| && ParseField(parts[i]).Bad?
    decreases |parts|
  {
    if parts != [] {
      if exists i :: 0 <= i < |parts| && ParseField(parts[i]).Bad? {
        var i :| 0 <= i < |parts| && ParseField(parts[i]).Bad?;
        assert i > 0 ==> parts[1..][i - 1] == parts[i];
      }
      if exists i :: 0 <= i < |parts[1..]| && ParseField(parts[1..][i]).Bad? {
        var i :| 0 <= i < |parts[1..]| && ParseField(parts[1..][i]).Bad?;
        assert parts[i + 1] == parts[1..][i];
      }
      match ParseField(parts[0])
      case Skip => AddFieldsFails(acc, parts[1..]);
      case Pair(k, v) => AddFieldsFails(acc[k := v], parts[1..]);
      case Bad =>
    }
  }

  /** The value of the last part naming `key`, searching from the right. */
  function LastValue(parts: seq<string>, key: string): Option<string>
  {
    if parts == [] then None
    else
      match ParseField(parts[|parts| - 1])
      case Pair(k, v) => if k == key then Some(v) else LastValue(parts[..|parts| - 1], key)
      case _ => LastValue(parts[..|parts| - 1], key)
  }

  /** A later duplicate key overrides an earlier one: when the dictionary
      can be built, each key maps to the value of the last part naming
      it, and keys no part names keep their value in `acc`. */
  lemma {:induction false} AddFieldsLastWins(acc: map<string, string>, parts: seq<string>)
    requires AddFields(acc, parts).Ok?
    ensures var m := AddFields(acc, parts).value;
      forall key :: match LastValue(parts, key)
        case Some(v) => key in m && m[key] == v
        case None => (key in m <==> key in acc) && (key in acc ==> m[key] == acc[key])
    decreases |parts|
  {
    if parts != [] {
      var init := parts[..|parts| - 1];
      var last := parts[|parts| - 1];
      assert parts == init + [last];
      AddFieldsSnoc(acc, init, last);
      assert AddFields(acc, init).Ok?;
      AddFieldsLastWins(acc, init);
    }
  }

  /** The dictionary of a `;`-separated message: `strip(';')`, then
      `split(';')`, then one entry per part holding `=`. */
  function Fields(msg: string): Result<map<string, string>, StatusError>
  {
    AddFields(map[], Split(Strip(msg, ';'), ";"))
  }

  /** The report a `STATUS` message carries, read by key name. */
  function ParseStatus(msg: string): Result<Report, StatusError>
  {
    match Fields(msg)
    case Err(e) => Err(e)
    case Ok(m) =>
      if "TIME" !in m then Err(MissingKey("TIME"))
      else if "MV" !in m then Err(MissingKey("MV"))
      else if "MA" !in m then Err(MissingKey("MA"))
      else Ok(Report(m["TIME"], m["MV"], m["MA"]))
  }

  /** What `ParseStatus` makes of any message, with `parts` the pieces of
      `msg.strip(';').split(';')`: a part holding two `=` fails; otherwise
      `TIME`, `MV` and `MA`, checked in that order, must each be named by
      some part, and each takes the value of the last part naming it. */
  lemma ParseStatusSpec(msg: string)
    ensures var parts := Split(Strip(msg, ';'), ";");
      (exists i :: 0 <= i < |parts| && ParseField(parts[i]).Bad?) ==>
        ParseStatus(msg).Err? && ParseStatus(msg).error.MalformedField?
    ensures var parts := Split(Strip(msg, ';'), ";");
      (forall i :: 0 <= i < |parts| ==> !ParseField(parts[i]).Bad?) ==>
        ParseStatus(msg) ==
          if LastValue(parts, "TIME").None? then Err(MissingKey("TIME"))
          else if LastValue(parts, "MV").None? then Err(MissingKey("MV"))
          else if LastValue(parts, "MA").None? then Err(MissingKey("MA"))
          else Ok(Report(LastValue(parts, "TIME").value, LastValue(parts, "MV").value, LastValue(parts, "MA").value))
  {
    var parts := Split(Strip(msg, ';'), ";");
    AddFieldsFails(map[], parts);
    if AddFields(map[], parts).Ok? {
      AddFieldsLastWins(map[], parts);
      assert LastValue(parts, "TIME").None? ==> "TIME" !in Fields(msg).value;
      assert LastValue(parts, "MV").None? ==> "MV" !in Fields(msg).value;
      assert LastValue(parts, "MA").None? ==> "MA" !in Fields(msg).value;
    } else {
      AddFieldsErr(map[], parts);
    }
  }

  /** The only failure building the dictionary can give is a malformed part. */
  lemma {:induction false} AddFieldsErr(acc: map<string, string>, parts: seq<string>)
    requires AddFields(acc, parts).Err?
    ensures AddFields(acc, parts).error.MalformedField?
    decreases |parts|
  {
    match ParseField(parts[0])
    case Skip => AddFieldsErr(acc, parts[1..]);
    case Pair(k, v) => AddFieldsErr(acc[k := v], parts[1..]);
    case Bad =>
  }

  // ---------------------------------------------------------------------
  // Reading back the message layout

  lemma {:induction false} EncodeFieldsEnd(fields: seq<Field>)
    requires PlainFields(fields)
    ensures var e := EncodeFields(fields);
      e == [] || (e[0] == ';' && e[|e| - 1] != ';')
  {
    if fields != [] {
      EncodeFieldsEnd(fields[1..]);
    }
  }

  lemma Regroup(a: string, c: char, text: string, rest: string)
    ensures a + ([c] + text + rest) == a + [c] + (text + rest)
  {
  }

  lemma {:induction false} SplitEncoded(a: string, fields: seq<Field>)
    requires ';' !in a && PlainFields(fields)
    ensures Split(a + EncodeFields(fields), ";") == [a] + FieldTexts(fields)
    decreases |fields|
  {
    if fields == [] {
      assert a + EncodeFields(fields) == a;
      SplitNoChar(a, ';');
    } else {
      var text := FieldText(fields[0]);
      var rest := EncodeFields(fields[1..]);
      assert Plain(fields[0].key) && Plain(fields[0].value);
      assert PlainFields(fields[1..]) by {
        forall i | 0 <= i < |fields[1..]|
          ensures Plain(fields[1..][i].key) && Plain(fields[1..][i].value)
        {
          assert fields[1..][i] == fields[i + 1];
        }
      }
      Regroup(a, ';', text, rest);
      SplitFirstChar(a, ';', text + rest);
      SplitEncoded(text, fields[1..]);
    }
  }

  lemma {:induction false} AddFieldTexts(acc: map<string, string>, fields: seq<Field>)
    requires PlainFields(fields)
    ensures AddFields(acc, FieldTexts(fields)) == Ok(FoldFields(acc, fields))
    decreases |fields|
  {
    if fields != [] {
      var f := fields[0];
      ParseFieldPair(FieldText(f), f.key, f.value);
      assert PlainFields(fields[1..]) by {
        forall i | 0 <= i < |fields[1..]|
          ensures Plain(fields[1..][i].key) && Plain(fields[1..][i].value)
        {
          assert fields[1..][i] == fields[i + 1];
        }
      }
      assert FieldTexts(fields)[1..] == FieldTexts(fields[1..]);
      AddFieldTexts(acc[f.key := f.value], fields[1..]);
    }
  }

  /** Reading a message back: the dictionary of `<tag>;K1=V1;...;` is the
      fields entered in order, for a tag and fields free of delimiters. */
  lemma FieldsOfMessage(tag: string, fields: seq<Field>)
    requires tag != [] && Plain(tag) && PlainFields(fields)
    ensures Fields(Message(tag, fields)) == Ok(FoldFields(map[], fields))
  {
    var body := tag + EncodeFields(fields);
    EncodeFieldsEnd(fields);
    assert body[|body| - 1] != ';' by {
      if EncodeFields(fields) == [] {
        assert body == tag;
      } else {
        assert body[|body| - 1] == EncodeFields(fields)[|EncodeFields(fields)| - 1];
      }
    }
    StripTrailing(body, ';');
    SplitEncoded(tag, fields);
    AddFieldTexts(map[], fields);
  }

  /** The fields of the start command. */
  function StartFields(duration: nat, rate: nat): seq<Field>
  {
    [Field("CMD", "START"), Field("DURATION", Decimal(duration)), Field("RATE", Decimal(rate))]
  }

  /** The layout of a message with three fields, written out. */
  lemma MessageOfThree(tag: string, a: Field, b: Field, c: Field)
    ensures Message(tag, [a, b, c])
            == tag + ";" + a.key + "=" + a.value + ";" + b.key + "=" + b.value + ";" + c.key + "=" + c.value + ";"
  {
    assert [a, b, c][1..] == [b, c];
    assert [b, c][1..] == [c];
    assert [c][1..] == [];
    assert EncodeFields([c]) == ";" + FieldText(c);
    assert EncodeFields([b, c]) == ";" + FieldText(b) + (";" + FieldText(c));
    assert EncodeFields([a, b, c]) == ";" + FieldText(a) + (";" + FieldText(b) + (";" + FieldText(c)));
  }

  /** The start command is `TEST` followed by the fields `CMD=START`,
      `DURATION` and `RATE`. */
  lemma StartCommandLayout(duration: nat, rate: nat)
    ensures StartCommand(duration, rate) == Message("TEST", StartFields(duration, rate))
  {
    var d := Decimal(duration);
    var r := Decimal(rate);
    MessageOfThree("TEST", Field("CMD", "START"), Field("DURATION", d), Field("RATE", r));
    StartTemplate();
    var p := "TEST" + ";" + "CMD" + "=" + "START" + ";" + "DURATION" + "=";
    assert p + d + ";RATE=" == p + d + ";" + "RATE" + "=";
  }

  /** The literal pieces of the start command template. */
  lemma StartTemplate()
    ensures "TEST;CMD=START;DURATION=" == "TEST" + ";" + "CMD" + "=" + "START" + ";" + "DURATION" + "="
    ensures ";RATE=" == ";" + "RATE" + "="
  {
  }

  /** The dictionary a device reads out of the start command. */
  lemma StartCommandFields(duration: nat, rate: nat)
    ensures Fields(StartCommand(duration, rate))
            == Ok(map["CMD" := "START", "DURATION" := Decimal(duration), "RATE" := Decimal(rate)])
  {
    var fields := StartFields(duration, rate);
    DigitsHaveNoDelimiters(Decimal(duration));
    DigitsHaveNoDelimiters(Decimal(rate));
    StartCommandLayout(duration, rate);
    FieldsOfMessage("TEST", fields);
    FoldThreeFields(map[], fields[0], fields[1], fields[2]);
  }

  /** A device reading the start command gets back both numbers. */
  lemma StartCommandDecodes(duration: nat, rate: nat)
    ensures var r := Fields(StartCommand(duration, rate));
      && r.Ok? && "DURATION" in r.value && "RATE" in r.value
      && AllDigits(r.value["DURATION"]) && DigitsValue(r.value["DURATION"]) == duration
      && AllDigits(r.value["RATE"]) && DigitsValue(r.value["RATE"]) == rate
  {
    StartCommandFields(duration, rate);
    var m := map["CMD" := "START", "DURATION" := Decimal(duration), "RATE" := Decimal(rate)];
    assert m["DURATION"] == Decimal(duration) && m["RATE"] == Decimal(rate);
    DecimalRoundTrip(duration);
    DecimalRoundTrip(rate);
  }

  /** The layout of a message with one field, written out. */
  lemma MessageOfOne(tag: string, a: Field)
    ensures Message(tag, [a]) == tag + ";" + a.key + "=" + a.value + ";"
  {
    assert [a][1..] == [];
    assert EncodeFields([a]) == ";" + FieldText(a);
  }

  /** The stop command is `TEST` followed by the single field `CMD=STOP`. */
  lemma StopCommandLayout()
    ensures STOP_COMMAND == Message("TEST", [Field("CMD", "STOP")])
  {
    MessageOfOne("TEST", Field("CMD", "STOP"));
  }

  /** The dictionary a device reads out of the stop command. */
  lemma StopCommandFields()
    ensures Fields(STOP_COMMAND) == Ok(map["CMD" := "STOP"])
  {
    StopCommandLayout();
    FieldsOfMessage("TEST", [Field("CMD", "STOP")]);
    assert [Field("CMD", "STOP")][1..] == [];
  }

  /** A report as the device lays it out. */
  function FormatStatus(r: Report): string
  {
    Message(STATUS_PREFIX, [Field("TIME", r.time), Field("MV", r.mv), Field("MA", r.ma)])
  }

  /** The dictionary of a report as the device lays it out. */
  lemma StatusFields(r: Report)
    requires Plain(r.time) && Plain(r.mv) && Plain(r.ma)
    ensures Fields(FormatStatus(r)) == Ok(map["TIME" := r.time, "MV" := r.mv, "MA" := r.ma])
  {
    var fields := [Field("TIME", r.time), Field("MV", r.mv), Field("MA", r.ma)];
    FieldsOfMessage(STATUS_PREFIX, fields);
    FoldThreeFields(map[], fields[0], fields[1], fields[2]);
  }

  /** Every report the device can send comes back out of `ParseStatus`. */
  lemma StatusRoundTrip(r: Report)
    requires Plain(r.time) && Plain(r.mv) && Plain(r.ma)
    ensures StartsWith(FormatStatus(r), STATUS_PREFIX)
    ensures ParseStatus(FormatStatus(r)) == Ok(r)
  {
    StatusFields(r);
    var m := map["TIME" := r.time, "MV" := r.mv, "MA" := r.ma];
    assert "TIME" in m && "MV" in m && "MA" in m;
    assert m["TIME"] == r.time && m["MV"] == r.mv && m["MA"] == r.ma;
  }

  // ---------------------------------------------------------------------
  // The receive loop

  /** What the loop does with one datagram: the idle check comes first,
      then the `STATUS` prefix; everything else is ignored. */
  datatype Step = IdleStep | ReportStep(report: Report) | FailStep(error: StatusError) | IgnoreStep

  function Classify(payload: string): Step
  {
    if Contains(payload, IDLE_MARKER) then IdleStep
    else if StartsWith(payload, STATUS_PREFIX) then
      match ParseStatus(payload)
      case Err(e) => FailStep(e)
      case Ok(r) => ReportStep(r)
    else IgnoreStep
  }

  /** The schedule of one session: datagrams in arrival order, with the
      points at which `stop()` is called between two loop iterations. */
  datatype Event = Datagram(payload: string) | StopCall

  /** A schedule entry as the loop acts on it: a received datagram, by what
      it makes the loop do, or a call to `stop()`. */
  datatype Act = Arrived(step: Step) | StopRequested

  function Arrive(e: Event): Act
  {
    match e
    case Datagram(d) => Arrived(Classify(d))
    case StopCall => StopRequested
  }

  function Arrivals(events: seq<Event>): (acts: seq<Act>)
    ensures |acts| == |events|
  {
    if events == [] then [] else [Arrive(events[0])] + Arrivals(events[1..])
  }

  lemma {:induction false} ArrivalsAppend(first: seq<Event>, second: seq<Event>)
    ensures Arrivals(first + second) == Arrivals(first) + Arrivals(second)
    decreases |first|
  {
    if first == [] {
      assert first + second == second;
    } else {
      assert (first + second)[0] == first[0];
      assert (first + second)[1..] == first[1..] + second;
      ArrivalsAppend(first[1..], second);
    }
  }

  /** How the loop ends: on the idle marker, because `running` was cleared,
      by the receive timeout, or by the exception of a malformed report. */
  datatype Ending = Idle | Stopped | TimedOut | Crashed(error: StatusError)

  /** The reports emitted, whether `stop()` was called while the loop ran,
      and how it ended. */
  datatype Trace = Trace(reports: seq<Report>, stopCalled: bool, ending: Ending)

  /** `while self.running:` over the schedule, starting with the flag at
      `running`. */
  function Loop(acts: seq<Act>, running: bool): Trace
    decreases |acts|
  {
    if !running then Trace([], false, Stopped)
    else if acts == [] then Trace([], false, TimedOut)
    else
      match acts[0]
      case StopRequested =>
        var t := Loop(acts[1..], false);
        t.(stopCalled := true)
      case Arrived(step) =>
        match step
        case IdleStep => Trace([], false, Idle)
        case FailStep(e) => Trace([], false, Crashed(e))
        case ReportStep(r) =>
          var t := Loop(acts[1..], true);
          t.(reports := [r] + t.reports)
        case IgnoreStep => Loop(acts[1..], true)
  }

  /** The session over a schedule of datagrams and `stop()` calls. */
  function Session(events: seq<Event>, running: bool): Trace
  {
    Loop(Arrivals(events), running)
  }

  /** The loop only runs out of datagrams with the flag still set and
      `stop()` never called; a call to `stop()` always ends it as
      `Stopped`. */
  lemma {:induction false} LoopEnds(acts: seq<Act>, running: bool)
    ensures var t := Loop(acts, running);
      && (t.ending == TimedOut ==> running && !t.stopCalled && StopRequested !in acts)
      && (t.stopCalled ==> running && t.ending == Stopped)
    decreases |acts|
  {
    if running && acts != [] {
      assert acts == [acts[0]] + acts[1..];
      if acts[0].Arrived? {
        LoopEnds(acts[1..], true);
      }
    }
  }

  /** Running over `first + second` is running over `first` and, if that ran
      out of datagrams, carrying on over `second`. */
  lemma {:induction false} LoopAppend(first: seq<Act>, second: seq<Act>, running: bool)
    ensures var t1 := Loop(first, running);
      Loop(first + second, running) ==
        if t1.ending == TimedOut then
          var t2 := Loop(second, running);
          t2.(reports := t1.reports + t2.reports)
        else t1
    decreases |first|
  {
    if first == [] {
      assert first + second == second;
    } else if running {
      assert (first + second)[0] == first[0];
      assert (first + second)[1..] == first[1..] + second;
      if first[0].Arrived? {
        LoopAppend(first[1..], second, true);
      }
    }
  }

  /** Nothing after the end of the loop is looked at: a schedule that
      extends one on which the loop ended, without running out of
      datagrams, gives the same session. */
  lemma SessionIgnoresRest(first: seq<Event>, rest: seq<Event>, running: bool)
    requires Session(first, running).ending != TimedOut
    ensures Session(first + rest, running) == Session(first, running)
  {
    ArrivalsAppend(first, rest);
    LoopAppend(Arrivals(first), Arrivals(rest), running);
  }

  /** Once `stop()` has cleared the flag the loop starts no further
      iteration: whatever follows the call is never received. */
  lemma StopEndsLoop(before: seq<Event>, after: seq<Event>, running: bool)
    ensures Session(before + [StopCall], running).ending != TimedOut
    ensures Session(before + [StopCall] + after, running) == Session(before + [StopCall], running)
  {
    ArrivalsAppend(before, [StopCall]);
    assert Arrivals([StopCall]) == [StopRequested];
    LoopEnds(Arrivals(before + [StopCall]), running);
    SessionIgnoresRest(before + [StopCall], after, running);
  }

  /** A `StopCall` placed after a datagram that ends the loop (the idle
      marker or a malformed report) is never reached: such a stop, landing
      while that datagram was awaited, is a `Stop()` after `Run` instead. */
  lemma StopAfterEndingUnreached(payload: string, rest: seq<Event>)
    requires Classify(payload).IdleStep? || Classify(payload).FailStep?
    ensures Session([Datagram(payload), StopCall] + rest, true) == Session([Datagram(payload)], true)
    ensures !Session([Datagram(payload)], true).stopCalled
  {
    assert Arrivals([Datagram(payload), StopCall] + rest)[0] == Arrived(Classify(payload));
    assert Arrivals([Datagram(payload)])[0] == Arrived(Classify(payload));
  }

  /** A `STATUS` message that also holds `STATE=IDLE` ends the loop and
      yields no report. */
  lemma IdleBeforeStatus(payload: string, rest: seq<Event>)
    requires StartsWith(payload, STATUS_PREFIX) && Contains(payload, IDLE_MARKER)
    ensures Session([Datagram(payload)] + rest, true) == Trace([], false, Idle)
  {
    assert Arrivals([Datagram(payload)] + rest)[0] == Arrived(IdleStep);
  }

  /** The datagrams of a schedule without `stop()` calls. */
  function Datagrams(payloads: seq<string>): (events: seq<Event>)
    ensures |events| == |payloads|
  {
    if payloads == [] then [] else [Datagram(payloads[0])] + Datagrams(payloads[1..])
  }

  /** The index of the first payload holding the idle marker, or the
      number of payloads. */
  function FirstIdle(payloads: seq<string>): (n: nat)
    ensures n <= |payloads|
    ensures forall j :: 0 <= j < n ==> !Contains(payloads[j], IDLE_MARKER)
    ensures n < |payloads| ==> Contains(payloads[n], IDLE_MARKER)
  {
    if payloads == [] then 0
    else if Contains(payloads[0], IDLE_MARKER) then 0
    else 1 + FirstIdle(payloads[1..])
  }

  /** The `STATUS` payloads among `payloads`, in order. */
  function StatusPayloads(payloads: seq<string>): seq<string>
  {
    if payloads == [] then []
    else if StartsWith(payloads[0], STATUS_PREFIX) then [payloads[0]] + StatusPayloads(payloads[1..])
    else StatusPayloads(payloads[1..])
  }

  /** The reports of `STATUS` payloads parsed in order up to the first that
      fails, and that failure if there is one. */
  datatype Parsed = Parsed(reports: seq<Report>, failure: Option<StatusError>)

  function ParseAll(payloads: seq<string>): Parsed
  {
    if payloads == [] then Parsed([], None)
    else
      match ParseStatus(payloads[0])
      case Err(e) => Parsed([], Some(e))
      case Ok(r) =>
        var p := ParseAll(payloads[1..]);
        p.(reports := [r] + p.reports)
  }

  /** The `STATUS` payloads before the first idle message. */
  function StatusBeforeIdle(payloads: seq<string>): seq<string>
  {
    StatusPayloads(payloads[..FirstIdle(payloads)])
  }

  /** Peeling off a first payload that is not idle. */
  lemma StatusBeforeIdleCons(payloads: seq<string>)
    requires payloads != [] && !Contains(payloads[0], IDLE_MARKER)
    ensures FirstIdle(payloads) == 1 + FirstIdle(payloads[1..])
    ensures StatusBeforeIdle(payloads) ==
      (if StartsWith(payloads[0], STATUS_PREFIX) then [payloads[0]] else []) + StatusBeforeIdle(payloads[1..])
  {
    var n := FirstIdle(payloads);
    var pre := payloads[1..][..n - 1];
    assert payloads[..n] == [payloads[0]] + pre;
    assert ([payloads[0]] + pre)[1..] == pre;
    if !StartsWith(payloads[0], STATUS_PREFIX) {
      assert [] + StatusBeforeIdle(payloads[1..]) == StatusBeforeIdle(payloads[1..]);
    }
  }

  lemma DatagramsCons(payloads: seq<string>)
    requires payloads != []
    ensures Arrivals(Datagrams(payloads)) == [Arrived(Classify(payloads[0]))] + Arrivals(Datagrams(payloads[1..]))
  {
    assert Datagrams(payloads)[1..] == Datagrams(payloads[1..]);
  }

  /** Over datagrams alone, the loop reports exactly the `STATUS` messages
      that come before the first idle message, in arrival order, and ends
      on that message or by timeout when there is none; when one of those
      messages fails to parse, the reports before it are still emitted and
      its exception ends the loop. */
  lemma {:induction false} SessionReports(payloads: seq<string>)
    ensures var t := Session(Datagrams(payloads), true);
      var p := ParseAll(StatusBeforeIdle(payloads));
      && t.reports == p.reports
      && !t.stopCalled
      && t.ending == match p.failure
           case Some(e) => Crashed(e)
           case None => if FirstIdle(payloads) < |payloads| then Idle else TimedOut
    decreases |payloads|
  {
    if payloads != [] {
      var d := payloads[0];
      var rest := payloads[1..];
      DatagramsCons(payloads);
      var acts := Arrivals(Datagrams(rest));
      var t := Session(Datagrams(payloads), true);
      assert ([Arrived(Classify(d))] + acts)[0] == Arrived(Classify(d));
      assert ([Arrived(Classify(d))] + acts)[1..] == acts;
      if Contains(d, IDLE_MARKER) {
        assert Classify(d) == IdleStep;
        assert payloads[..FirstIdle(payloads)] == [];
      } else {
        SessionReports(rest);
        StatusBeforeIdleCons(payloads);
        var pending := StatusBeforeIdle(rest);
        if StartsWith(d, STATUS_PREFIX) {
          assert StatusBeforeIdle(payloads) == [d] + pending;
          assert ([d] + pending)[0] == d;
          assert ([d] + pending)[1..] == pending;
          match ParseStatus(d)
          case Err(e) =>
            assert Classify(d) == FailStep(e);
            assert ParseAll([d] + pending) == Parsed([], Some(e));
          case Ok(r) =>
            assert Classify(d) == ReportStep(r);
            assert t == Loop(acts, true).(reports := [r] + Loop(acts, true).reports);
        } else {
          assert Classify(d) == IgnoreStep;
          assert StatusBeforeIdle(payloads) == pending;
          assert t == Loop(acts, true);
        }
      }
    }
  }

  /** What the worker emits: one `dataReceived` per report, then
      `testFinished`, which an exception escaping the loop skips. */
  datatype Signal = DataReceived(deviceKey: string, report: Report) | TestFinished(deviceKey: string)

  function ReportSignals(deviceKey: string, reports: seq<Report>): (signals: seq<Signal>)
    ensures |signals| == |reports|
  {
    if reports == [] then [] else [DataReceived(deviceKey, reports[0])] + ReportSignals(deviceKey, reports[1..])
  }

  function SessionSignals(deviceKey: string, t: Trace): seq<Signal>
  {
    ReportSignals(deviceKey, t.reports) + (if t.ending.Crashed? then [] else [TestFinished(deviceKey)])
  }

  function CountFinished(signals: seq<Signal>): nat
  {
    if signals == [] then 0
    else (if signals[0].TestFinished? then 1 else 0) + CountFinished(signals[1..])
  }

  lemma {:induction false} CountFinishedAppend(a: seq<Signal>, b: seq<Signal>)
    ensures CountFinished(a + b) == CountFinished(a) + CountFinished(b)
    decreases |a|
  {
    if a == [] {
      assert a + b == b;
    } else {
      assert (a + b)[1..] == a[1..] + b;
      CountFinishedAppend(a[1..], b);
    }
  }

  lemma {:induction false} ReportSignalsNotFinished(deviceKey: string, reports: seq<Report>)
    ensures CountFinished(ReportSignals(deviceKey, reports)) == 0
    ensures forall i :: 0 <= i < |reports| ==> ReportSignals(deviceKey, reports)[i] == DataReceived(deviceKey, reports[i])
    decreases |reports|
  {
    if reports != [] {
      ReportSignalsNotFinished(deviceKey, reports[1..]);
    }
  }

  lemma {:induction false} ReportSignalsSnoc(deviceKey: string, reports: seq<Report>, r: Report)
    ensures ReportSignals(deviceKey, reports + [r]) == ReportSignals(deviceKey, reports) + [DataReceived(deviceKey, r)]
    decreases |reports|
  {
    if reports == [] {
      assert [r][1..] == [];
    } else {
      assert (reports + [r])[1..] == reports[1..] + [r];
      ReportSignalsSnoc(deviceKey, reports[1..], r);
    }
  }

  /** However the loop ends by idle, flag or timeout, `testFinished` is
      emitted exactly once and last, after one `dataReceived` per report in
      order; after an exception it is never emitted. */
  lemma SessionSignalsOrder(deviceKey: string, t: Trace)
    ensures var s := SessionSignals(deviceKey, t);
      && CountFinished(s) == (if t.ending.Crashed? then 0 else 1)
      && |s| == |t.reports| + (if t.ending.Crashed? then 0 else 1)
      && (forall i :: 0 <= i < |t.reports| ==> s[i] == DataReceived(deviceKey, t.reports[i]))
      && (!t.ending.Crashed? ==> s[|s| - 1] == TestFinished(deviceKey))
  {
    ReportSignalsNotFinished(deviceKey, t.reports);
    var tail: seq<Signal> := if t.ending.Crashed? then [] else [TestFinished(deviceKey)];
    CountFinishedAppend(ReportSignals(deviceKey, t.reports), tail);
    assert CountFinished(tail) == (if t.ending.Crashed? then 0 else 1) by {
      if tail != [] {
        assert tail[1..] == [];
      }
    }
  }

  // ---------------------------------------------------------------------
  // The worker

  /** `TestWorker`: one session with one device. */
  class TestWorker {
    const deviceKey: string
    const ip: string
    const port: int
    const duration: nat
    const rate: nat
    var running: bool
    /** The datagrams sent to the device. */
    var outbox: seq<Outbound>
    /** The signals emitted, in order. */
    var signals: seq<Signal>

    constructor (deviceKey: string, ip: string, port: int, duration: nat, rate: nat)
      ensures this.deviceKey == deviceKey && this.ip == ip && this.port == port
      ensures this.duration == duration && this.rate == rate
      ensures running && outbox == [] && signals == []
    {
      this.deviceKey := deviceKey;
      this.ip := ip;
      this.port := port;
      this.duration := duration;
      this.rate := rate;
      running := true;
      outbox := [];
      signals := [];
    }

    /** `stop`: clears the flag and sends the stop command to the device. */
    method Stop()
      modifies this
      ensures !running
      ensures outbox == old(outbox) + [Outbound(STOP_COMMAND, ip, port)]
      ensures signals == old(signals)
    {
      running := false;
      outbox := outbox + [Outbound(STOP_COMMAND, ip, port)];
    }

    /** `run`: sends the start command, sets the receive timeout, runs the
        receive loop and emits `testFinished`, unless a malformed report
        raised out of the loop. Classifying a datagram changes no state, so
        the schedule is classified as one sequence and the loop itself is
        `Listen`. */
    method Run(events: seq<Event>) returns (timeout: nat, ending: Ending)
      modifies this
      ensures timeout == ReceiveTimeout(duration)
      ensures var t := Session(events, old(running));
        && ending == t.ending
        && signals == old(signals) + SessionSignals(deviceKey, t)
        && outbox == old(outbox) + [Outbound(StartCommand(duration, rate), ip, port)]
                     + (if t.stopCalled then [Outbound(STOP_COMMAND, ip, port)] else [])
        && running == (old(running) && !t.stopCalled)
    {
      outbox := outbox + [Outbound(StartCommand(duration, rate), ip, port)];
      timeout := ReceiveTimeout(duration);
      ending := Listen(Arrivals(events));
      if !ending.Crashed? {
        signals := signals + [TestFinished(deviceKey)];
      }
    }

    /** The `while self.running` loop of `run`, one schedule entry per
        iteration. */
    method Listen(acts: seq<Act>) returns (ending: Ending)
      modifies this
      ensures var t := Loop(acts, old(running));
        && ending == t.ending
        && signals == old(signals) + ReportSignals(deviceKey, t.reports)
        && outbox == old(outbox) + (if t.stopCalled then [Outbound(STOP_COMMAND, ip, port)] else [])
        && running == (old(running) && !t.stopCalled)
    {
      ghost var reports: seq<Report> := [];
      ghost var stopCalled := false;
      var i := 0;
      ending := Stopped;
      while running
        invariant 0 <= i <= |acts|
        invariant running == (old(running) && !stopCalled)
        invariant outbox == old(outbox) + (if stopCalled then [Outbound(STOP_COMMAND, ip, port)] else [])
        invariant signals == old(signals) + ReportSignals(deviceKey, reports)
        invariant ending == Stopped
        invariant var t := Loop(acts[i..], running);
          Loop(acts, old(running)) == t.(reports := reports + t.reports, stopCalled := stopCalled || t.stopCalled)
        decreases |acts| - i
      {
        if i == |acts| {
          // `recvfrom` times out
          ending := TimedOut;
          break;
        }
        assert acts[i..][1..] == acts[i + 1..];
        match acts[i]
        case StopRequested =>
          Stop();
          stopCalled := true;
          i := i + 1;
        case Arrived(step) =>
          i := i + 1;
          match step
          case IdleStep =>
            ending := Idle;
            break;
          case FailStep(e) =>
            ending := Crashed(e);
            break;
          case ReportStep(r) =>
            ReportSignalsSnoc(deviceKey, reports, r);
            signals := signals + [DataReceived(deviceKey, r)];
            reports := reports + [r];
          case IgnoreStep =>
      }
      assert reports + [] == reports;
    }
  }
}
