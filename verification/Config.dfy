/**
 The configuration loader (config.c): a two-state parser that reads a byte at a time into a
 name block and a value block, and calls the callback whose name matches at each line end.
 */
module Config {
  import opened CText

  const MAX_VAR_NAME_LENGTH := 64
  const MAX_VAR_VALUE_LENGTH := 512

  /** A call of callback number `index` of the table. */
  datatype Call = Call(index: nat, value: string)

  /** The callback table; what a callback answers may depend on the calls before it. */
  datatype Table = Table(names: seq<string>, accepts: (seq<Call>, Call) -> bool)

  /** The first entry with the name. */
  function Find(names: seq<string>, name: string): (e: Option<nat>)
    ensures e.None? ==> name !in names
    ensures e.Some? ==> e.value < |names| && names[e.value] == name && name !in names[..e.value]
  {
    if names == [] then None
    else if names[0] == name then Some(0)
    else match Find(names[1..], name) case None => None case Some(e) => Some(e + 1)
  }

  // ----- the machine

  /**
   The machine between two bytes. `name` and `value` are the characters last written into
   their blocks; they stay there when the cursor goes back to 0.
   */
  datatype Machine = Machine(inValue: bool, i: nat, name: string, value: string, trace: seq<Call>, failed: bool)
  {
    predicate Valid()
    {
      && |name| < MAX_VAR_NAME_LENGTH && |value| < MAX_VAR_VALUE_LENGTH
      && (i > 0 && !inValue ==> |name| == i)
      && (i > 0 && inValue ==> |value| == i)
    }
  }

  function Start(name: string, value: string): Machine
  {
    Machine(false, 0, name, value, [], false)
  }

  /** The end of a line: at most one call, and a callback that answers 0 ends the parse. */
  function Commit(t: Table, m: Machine): Machine
  {
    match Find(t.names, CStr(m.name))
    case None => m.(inValue := false, i := 0)
    case Some(e) =>
      var call := Call(e, CStr(m.value));
      m.(inValue := false, i := 0, trace := m.trace + [call], failed := !t.accepts(m.trace, call))
  }

  /** One byte. A character written at cursor 0 replaces what the block held. */
  function Step(t: Table, m: Machine, c: char): (m': Machine)
    requires m.Valid()
    ensures m'.Valid()
  {
    if m.failed then m
    else if !m.inValue then
      if c == '=' then m.(inValue := true, i := 0)
      else if m.i < MAX_VAR_NAME_LENGTH - 1 then
        m.(i := m.i + 1, name := if m.i == 0 then [c] else m.name + [c])
      else m.(failed := true)
    else
      if c == '\n' then Commit(t, m)
      else if c == '\r' then m
      else if m.i < MAX_VAR_VALUE_LENGTH - 1 then
        m.(i := m.i + 1, value := if m.i == 0 then [c] else m.value + [c])
      else m.(failed := true)
  }

  function Run(t: Table, m: Machine, bytes: string): (m': Machine)
    requires m.Valid()
    ensures m'.Valid()
  {
    if bytes == [] then m else Step(t, Run(t, m, bytes[..|bytes| - 1]), bytes[|bytes| - 1])
  }

  // ----- the loader

  /** The blocks hold what the machine says, with a NUL where the cursor stands once it has moved. */
  ghost predicate Blocks(varname: array<char>, varval: array<char>, m: Machine)
    reads varname, varval
  {
    && varname.Length == MAX_VAR_NAME_LENGTH && varval.Length == MAX_VAR_VALUE_LENGTH
    && m.Valid()
    && varname[..|m.name|] == m.name && varname[|m.name|] == NUL
    && varval[..|m.value|] == m.value && varval[|m.value|] == NUL
  }

  lemma BlockStr(block: string, s: string)
    requires |s| < |block| && block[..|s|] == s && block[|s|] == NUL
    ensures CStr(block) == CStr(s)
  {
    var n := IndexOf(s, NUL);
    assert block[..n] == s[..n];
    IndexOfIs(block, NUL, n);
  }

  /**
   config_load_callbackable_config. A file that cannot be opened gives a descriptor of -1, the
   first read fails, and the load counts as successful. name0 and value0 are what the two
   blocks happen to hold on entry.
   */
  method Load(file: Option<string>, t: Table, varname: array<char>, varval: array<char>,
              ghost name0: string, ghost value0: string)
    returns (ok: bool, trace: seq<Call>)
    requires varname != varval && Blocks(varname, varval, Start(name0, value0))
    modifies varname, varval
    ensures file.None? ==> ok && trace == []
    ensures file.Some? ==>
      var end := Run(t, Start(name0, value0), file.value);
      trace == end.trace && ok == !end.failed
  {
    hide Run, Find, CStr;
    trace := [];
    if file.None? {
      return true, trace;
    }
    var f := file.value;
    var i, sm, pos := 0, 0, 0;
    ghost var m := Start(name0, value0);
    RunNothing(t, m, f);
    while pos < |f|
      invariant 0 <= pos <= |f| && sm in {0, 1}
      invariant m == Run(t, Start(name0, value0), f[..pos])
      invariant Blocks(varname, varval, m) && !m.failed
      invariant m.i == i && m.inValue == (sm == 1) && m.trace == trace
    {
      var c := f[pos];
      RunNext(t, Start(name0, value0), f, pos);
      pos := pos + 1;
      ghost var m1 := Step(t, m, c);
      if sm == 0 {
        if c == '=' {
          sm, i := 1, 0;
        } else if i < MAX_VAR_NAME_LENGTH - 1 {
          Put(varname, i, c, if i == 0 then [] else m.name);
          i := i + 1;
        } else {
          StaysFailed(t, Start(name0, value0), f, pos);
          return false, trace;
        }
      } else {
        if c == '\n' {
          var accepted;
          accepted, trace := CommitLine(t, trace, varname, varval, m);
          if !accepted {
            StaysFailed(t, Start(name0, value0), f, pos);
            return false, trace;
          }
          i, sm := 0, 0;
        } else if c == '\r' {
        } else if i < MAX_VAR_VALUE_LENGTH - 1 {
          Put(varval, i, c, if i == 0 then [] else m.value);
          i := i + 1;
        } else {
          StaysFailed(t, Start(name0, value0), f, pos);
          return false, trace;
        }
      }
      m := m1;
    }
    assert f[..pos] == f;
    ok := true;
  }

  lemma RunNothing(t: Table, m: Machine, f: string)
    requires m.Valid()
    ensures Run(t, m, f[..0]) == m
  {
  }

  lemma RunNext(t: Table, m: Machine, f: string, pos: nat)
    requires m.Valid() && pos < |f|
    ensures Run(t, m, f[..pos + 1]) == Step(t, Run(t, m, f[..pos]), f[pos])
  {
    assert f[..pos + 1][..pos] == f[..pos];
  }

  /** block[i] = c; block[i + 1] = 0. */
  method Put(block: array<char>, i: nat, c: char, ghost written: string)
    requires i + 1 < block.Length && i == |written| && block[..i] == written
    modifies block
    ensures block[..i + 1] == written + [c] && block[i + 1] == NUL
  {
    block[i] := c;
    block[i + 1] := NUL;
  }

  /** The end of a value line: the callback gets what the blocks hold as C strings. */
  method CommitLine(t: Table, trace0: seq<Call>, varname: array<char>, varval: array<char>, ghost m: Machine)
    returns (accepted: bool, trace: seq<Call>)
    requires Blocks(varname, varval, m)
    ensures match Find(t.names, CStr(m.name))
      case None => accepted && trace == trace0
      case Some(e) =>
        var call := Call(e, CStr(m.value));
        accepted == t.accepts(trace0, call) && trace == trace0 + [call]
  {
    hide Find, CStr;
    BlockStr(varname[..], m.name);
    BlockStr(varval[..], m.value);
    accepted, trace := CallBack(t, trace0, varname[..], varval[..]);
  }

  /** The search for the callback with strcmp, and the call. */
  method CallBack(t: Table, trace0: seq<Call>, varname: string, varval: string)
    returns (accepted: bool, trace: seq<Call>)
    ensures match Find(t.names, CStr(varname))
      case None => accepted && trace == trace0
      case Some(e) =>
        var call := Call(e, CStr(varval));
        accepted == t.accepts(trace0, call) && trace == trace0 + [call]
  {
    trace, accepted := trace0, true;
    var name := CStr(varname);
    var e := 0;
    while e < |t.names|
      invariant 0 <= e <= |t.names|
      invariant trace == trace0 && accepted && name !in t.names[..e]
    {
      if t.names[e] == name {
        var found := Find(t.names, name);
        assert name in t.names;
        assert found.value == e by { FirstIs(t.names, name, e); }
        var call := Call(e, CStr(varval));
        return t.accepts(trace, call), trace + [call];
      }
      e := e + 1;
    }
    assert t.names[..e] == t.names;
  }

  lemma FirstIs(names: seq<string>, name: string, e: nat)
    requires e < |names| && names[e] == name && name !in names[..e]
    ensures Find(names, name) == Some(e)
  {
    if e > 0 {
      assert names[..e] == [names[0]] + names[1..][..e - 1];
      FirstIs(names[1..], name, e - 1);
    }
  }

  // ----- every input

  lemma {:induction false} RunConcat(t: Table, m: Machine, a: string, b: string)
    requires m.Valid()
    ensures Run(t, m, a + b) == Run(t, Run(t, m, a), b)
  {
    hide Step;
    if b == [] {
      assert a + b == a;
    } else {
      var n := |b| - 1;
      RunConcat(t, m, a, b[..n]);
      assert (a + b)[..|a| + n] == a + b[..n];
    }
  }

  lemma {:induction false} RunFailed(t: Table, m: Machine, bytes: string)
    requires m.Valid() && m.failed
    ensures Run(t, m, bytes) == m
  {
    if bytes != [] {
      RunFailed(t, m, bytes[..|bytes| - 1]);
    }
  }

  /** Nothing is read after a failure, and nothing that follows would change the outcome. */
  lemma StaysFailed(t: Table, m: Machine, f: string, pos: nat)
    requires m.Valid() && pos <= |f| && Run(t, m, f[..pos]).failed
    ensures Run(t, m, f) == Run(t, m, f[..pos])
  {
    assert f == f[..pos] + f[pos..];
    RunConcat(t, m, f[..pos], f[pos..]);
    RunFailed(t, Run(t, m, f[..pos]), f[pos..]);
  }

  lemma StepTrace(t: Table, m: Machine, c: char)
    requires m.Valid()
    ensures m.trace <= Step(t, m, c).trace
    ensures m.failed ==> Step(t, m, c) == m
    ensures !m.failed ==> (Step(t, m, c).failed <==> Breaks(t, m, c))
  {
  }

  /** The calls made on a prefix of a file are the first calls made on the file. */
  lemma {:induction false} TracePrefix(t: Table, m: Machine, a: string, b: string)
    requires m.Valid()
    ensures Run(t, m, a).trace <= Run(t, m, a + b).trace
    ensures Run(t, m, a).failed ==> Run(t, m, a + b) == Run(t, m, a)
  {
    hide Step;
    if b == [] {
      assert a + b == a;
    } else {
      var n := |b| - 1;
      TracePrefix(t, m, a, b[..n]);
      StepTrace(t, Run(t, m, a + b[..n]), b[n]);
      assert (a + b)[..|a| + n] == a + b[..n];
    }
  }

  /** The byte makes a name of 64, makes a value of 512, or ends a line whose callback rejects it. */
  predicate Breaks(t: Table, m: Machine, c: char)
  {
    !m.failed &&
    if !m.inValue then c != '=' && m.i == MAX_VAR_NAME_LENGTH - 1
    else if c == '\n' then
      var e := Find(t.names, CStr(m.name));
      e.Some? && !t.accepts(m.trace, Call(e.value, CStr(m.value)))
    else c != '\r' && m.i == MAX_VAR_VALUE_LENGTH - 1
  }

  predicate BreaksAt(t: Table, m: Machine, bytes: string, k: nat)
    requires m.Valid()
  {
    k < |bytes| && Breaks(t, Run(t, m, bytes[..k]), bytes[k])
  }

  lemma BreaksPrefix(t: Table, m: Machine, bytes: string, n: nat, k: nat)
    requires m.Valid() && k < n <= |bytes|
    ensures BreaksAt(t, m, bytes[..n], k) <==> BreaksAt(t, m, bytes, k)
  {
    assert bytes[..n][..k] == bytes[..k];
  }

  /** The load returns 0 exactly when one of the three things happens at some byte. */
  lemma {:induction false} FailsIff(t: Table, m: Machine, bytes: string)
    requires m.Valid() && !m.failed
    ensures Run(t, m, bytes).failed <==> exists k: nat | k < |bytes| :: BreaksAt(t, m, bytes, k)
  {
    if bytes != [] {
      var n := |bytes| - 1;
      FailsIff(t, m, bytes[..n]);
      StepTrace(t, Run(t, m, bytes[..n]), bytes[n]);
      BreaksLast(t, m, bytes);
      hide BreaksAt, Run;
      forall k: nat | k < n
        ensures BreaksAt(t, m, bytes[..n], k) <==> BreaksAt(t, m, bytes, k)
      {
        BreaksPrefix(t, m, bytes, n, k);
      }
    }
  }

  lemma BreaksLast(t: Table, m: Machine, bytes: string)
    requires m.Valid() && bytes != []
    ensures var n := |bytes| - 1; var before := Run(t, m, bytes[..n]);
      && Run(t, m, bytes) == Step(t, before, bytes[n])
      && (BreaksAt(t, m, bytes, n) <==> Breaks(t, before, bytes[n]))
      && (before.failed ==> !BreaksAt(t, m, bytes, n))
  {
  }

  // ----- records

  datatype Record = Record(name: string, value: string)

  function PrintOne(r: Record): string
  {
    r.name + "=" + r.value + "\n"
  }

  function Print(rs: seq<Record>): string
  {
    if rs == [] then [] else Print(rs[..|rs| - 1]) + PrintOne(rs[|rs| - 1])
  }

  /** A value as it is stored: carriage returns are skipped wherever they stand. */
  function Strip(v: string): (s: string)
    ensures |s| <= |v| && '\r' !in s
  {
    if v == [] then []
    else Strip(v[..|v| - 1]) + if v[|v| - 1] == '\r' then [] else [v[|v| - 1]]
  }

  /** Records that fit the blocks: a name may not hold '=', nor a value '\n'. */
  predicate Fits(r: Record)
  {
    && '=' !in r.name && |r.name| < MAX_VAR_NAME_LENGTH
    && '\n' !in r.value && |Strip(r.value)| < MAX_VAR_VALUE_LENGTH
  }

  predicate AllFit(rs: seq<Record>)
  {
    forall i | 0 <= i < |rs| :: Fits(rs[i])
  }

  /** What the blocks hold after the records: an empty name or value leaves the previous one in place. */
  function Held(rs: seq<Record>, r0: Record): Record
  {
    if rs == [] then r0
    else
      var before, last := Held(rs[..|rs| - 1], r0), rs[|rs| - 1];
      Record(if last.name == "" then before.name else last.name,
             if Strip(last.value) == "" then before.value else Strip(last.value))
  }

  datatype Outcome = Outcome(trace: seq<Call>, failed: bool)

  /** Calling the first matching callback once for each known record, until one rejects. */
  function Deliver(t: Table, rs: seq<Record>): Outcome
  {
    if rs == [] then Outcome([], false)
    else
      var before, r := Deliver(t, rs[..|rs| - 1]), rs[|rs| - 1];
      if before.failed then before
      else match Find(t.names, CStr(r.name))
        case None => before
        case Some(e) =>
          var call := Call(e, CStr(r.value));
          Outcome(before.trace + [call], !t.accepts(before.trace, call))
  }

  /** The records the callbacks see: each one as the blocks hold it at its line end. */
  function Seen(rs: seq<Record>, r0: Record): (out: seq<Record>)
    ensures |out| == |rs|
  {
    if rs == [] then [] else Seen(rs[..|rs| - 1], r0) + [Held(rs, r0)]
  }

  lemma {:induction false} RunName(t: Table, m: Machine, s: string)
    requires m.Valid() && !m.failed && !m.inValue && m.i == 0
    requires '=' !in s && |s| < MAX_VAR_NAME_LENGTH
    ensures Run(t, m, s) == m.(i := |s|, name := if s == "" then m.name else s)
  {
    if s != [] {
      var n := |s| - 1;
      assert s == s[..n] + [s[n]] && s[n] in s;
      RunName(t, m, s[..n]);
    }
  }

  lemma {:induction false} RunValue(t: Table, m: Machine, v: string)
    requires m.Valid() && !m.failed && m.inValue && m.i == 0
    requires '\n' !in v && |Strip(v)| < MAX_VAR_VALUE_LENGTH
    ensures Run(t, m, v) == m.(i := |Strip(v)|, value := if Strip(v) == "" then m.value else Strip(v))
  {
    if v != [] {
      var n := |v| - 1;
      assert v == v[..n] + [v[n]] && v[n] in v;
      RunValue(t, m, v[..n]);
    }
  }

  /** One printed record takes the machine from one line start to the next. */
  lemma RunRecord(t: Table, m: Machine, r: Record)
    requires m.Valid() && !m.failed && !m.inValue && m.i == 0 && Fits(r)
    ensures Run(t, m, PrintOne(r)) ==
            Commit(t, m.(name := if r.name == "" then m.name else r.name,
                         value := if Strip(r.value) == "" then m.value else Strip(r.value)))
  {
    hide Step;
    RunName(t, m, r.name);
    var m1 := Run(t, m, r.name);
    RunSnoc(t, m, r.name, '=');
    var m2 := m1.(inValue := true, i := 0);
    assert Step(t, m1, '=') == m2 by { StepEq(t, m1); }
    RunValue(t, m2, r.value);
    RunConcat(t, m, r.name + ['='], r.value);
    RunSnoc(t, m, r.name + ['='] + r.value, '\n');
    StepNl(t, Run(t, m2, r.value));
    assert PrintOne(r) == r.name + ['='] + r.value + ['\n'];
  }

  lemma RunSnoc(t: Table, m: Machine, s: string, c: char)
    requires m.Valid()
    ensures Run(t, m, s + [c]) == Step(t, Run(t, m, s), c)
  {
    assert (s + [c])[..|s|] == s;
  }

  lemma StepEq(t: Table, m: Machine)
    requires m.Valid() && !m.failed && !m.inValue
    ensures Step(t, m, '=') == m.(inValue := true, i := 0)
  {
  }

  lemma StepNl(t: Table, m: Machine)
    requires m.Valid() && !m.failed && m.inValue
    ensures Step(t, m, '\n') == Commit(t, m)
  {
  }

  /**
   Loading printed records of any shape that fits: the calls are those of the records as the
   blocks hold them, and the load fails exactly when one of these calls is rejected.
   */
  lemma {:induction false} LoadPrinted(t: Table, rs: seq<Record>, r0: Record)
    requires AllFit(rs) && |r0.name| < MAX_VAR_NAME_LENGTH && |r0.value| < MAX_VAR_VALUE_LENGTH
    ensures
      var end, out := Run(t, Start(r0.name, r0.value), Print(rs)), Deliver(t, Seen(rs, r0));
      && end.trace == out.trace && end.failed == out.failed
      && (!end.failed ==> !end.inValue && end.i == 0 && Record(end.name, end.value) == Held(rs, r0))
  {
    if rs != [] {
      var n := |rs| - 1;
      var m0 := Start(r0.name, r0.value);
      LoadPrinted(t, rs[..n], r0);
      RunConcat(t, m0, Print(rs[..n]), PrintOne(rs[n]));
      var m := Run(t, m0, Print(rs[..n]));
      assert Seen(rs, r0)[..n] == Seen(rs[..n], r0);
      if m.failed {
        RunFailed(t, m, PrintOne(rs[n]));
      } else {
        RunRecord(t, m, rs[n]);
      }
    }
  }

  /** Whether a record reaches the callbacks unchanged when the blocks hold `before`. */
  predicate Unchanged(before: Record, r: Record)
  {
    '\r' !in r.value && (r.name == "" ==> before.name == "") && (r.value == "" ==> before.value == "")
  }

  predicate UnchangedAt(rs: seq<Record>, r0: Record, i: nat)
    requires i < |rs|
  {
    Unchanged(if i == 0 then r0 else rs[i - 1], rs[i])
  }

  lemma UnchangedPrefix(rs: seq<Record>, r0: Record, i: nat)
    requires i < |rs| - 1
    ensures UnchangedAt(rs, r0, i) == UnchangedAt(rs[..|rs| - 1], r0, i)
  {
  }

  lemma HeldExactly(rs: seq<Record>, r0: Record)
    requires rs != []
    requires '\r' !in r0.value
    ensures var n := |rs| - 1; Held(rs, r0) == rs[n] <==> Unchanged(Held(rs[..n], r0), rs[n])
  {
    StripExactly(rs[|rs| - 1].value);
    HeldNoCr(rs[..|rs| - 1], r0);
  }

  lemma {:induction false} HeldNoCr(rs: seq<Record>, r0: Record)
    requires '\r' !in r0.value
    ensures '\r' !in Held(rs, r0).value
  {
    if rs != [] {
      HeldNoCr(rs[..|rs| - 1], r0);
    }
  }

  /**
   The callbacks see the records as they were written exactly when no value holds a carriage
   return and every empty name or value stands behind an empty one.
   */
  lemma {:induction false} SeenExactly(rs: seq<Record>, r0: Record)
    requires '\r' !in r0.value
    ensures Seen(rs, r0) == rs <==>
            forall i | 0 <= i < |rs| :: UnchangedAt(rs, r0, i)
  {
    hide Held, Unchanged;
    if rs != [] {
      var n := |rs| - 1;
      var init := rs[..n];
      SeenExactly(init, r0);
      HeldExactly(rs, r0);
      if Seen(init, r0) == init {
        HeldIsLast(init, r0);
      }
      SeenSnoc(rs, r0);
      hide Seen;
      assert Seen(init, r0) == init ==> (Held(rs, r0) == rs[n] <==> UnchangedAt(rs, r0, n));
      hide UnchangedAt;
      forall i | 0 <= i < n
        ensures UnchangedAt(rs, r0, i) == UnchangedAt(init, r0, i)
      {
        UnchangedPrefix(rs, r0, i);
      }
    }
  }

  lemma SeenSnoc(rs: seq<Record>, r0: Record)
    requires rs != []
    ensures var n := |rs| - 1; Seen(rs, r0) == rs <==> Seen(rs[..n], r0) == rs[..n] && Held(rs, r0) == rs[n]
  {
    var n := |rs| - 1;
    assert rs == rs[..n] + [rs[n]];
    assert Seen(rs, r0)[..n] == Seen(rs[..n], r0) && Seen(rs, r0)[n] == Held(rs, r0);
  }

  /** A name given no value is given the value of the line before, "LOGFILE=" behind "HOSTNAME=a" for one. */
  lemma EmptyValueRepeats(first: Record, name: string, r0: Record)
    requires name != "" && first.name != "" && first.value != "" && '\r' !in first.value
    ensures Seen([first, Record(name, "")], r0) == [first, Record(name, first.value)]
  {
    var rs := [first, Record(name, "")];
    assert rs[..1] == [first] && rs[..1][..0] == [];
    StripExactly(first.value);
    hide Strip;
    HeldOne(first, r0);
    SeenOne(first, r0);
    assert Strip("") == "" by { StripExactly(""); assert '\r' !in ""; }
  }

  lemma HeldOne(r: Record, r0: Record)
    requires r.name != "" && r.value != "" && Strip(r.value) == r.value
    ensures Held([r], r0) == r
  {
  }

  lemma SeenOne(r: Record, r0: Record)
    ensures Seen([r], r0) == [Held([r], r0)]
  {
    assert [r][..0] == [];
  }

  lemma HeldIsLast(rs: seq<Record>, r0: Record)
    requires Seen(rs, r0) == rs
    ensures rs == [] ==> Held(rs, r0) == r0
    ensures Held(rs, r0) == if rs == [] then r0 else rs[|rs| - 1]
  {
    if rs != [] {
      assert Seen(rs, r0)[|rs| - 1] == Held(rs, r0);
    }
  }

  lemma {:induction false} StripExactly(v: string)
    ensures Strip(v) == v <==> '\r' !in v
    ensures '\r' in v ==> |Strip(v)| < |v|
  {
    if v != [] {
      StripExactly(v[..|v| - 1]);
      assert v == v[..|v| - 1] + [v[|v| - 1]];
    }
  }

  lemma StripCr(v: string)
    ensures Strip(v + "\r") == Strip(v)
  {
    assert (v + "\r")[..|v|] == v;
  }

  function WithCr(rs: seq<Record>): (out: seq<Record>)
    ensures |out| == |rs|
    ensures forall i | 0 <= i < |rs| :: out[i] == Record(rs[i].name, rs[i].value + "\r")
  {
    seq(|rs|, i requires 0 <= i < |rs| => Record(rs[i].name, rs[i].value + "\r"))
  }

  lemma CrlfFits(rs: seq<Record>)
    requires AllFit(rs)
    ensures AllFit(WithCr(rs))
  {
    forall i | 0 <= i < |rs|
      ensures Fits(WithCr(rs)[i])
    {
      assert Fits(rs[i]);
      StripCr(rs[i].value);
    }
  }

  /** A file with CRLF line ends makes the callbacks see what the same file with LF makes them see. */
  lemma {:induction false} CrlfSame(rs: seq<Record>, r0: Record)
    ensures Seen(WithCr(rs), r0) == Seen(rs, r0)
    ensures Held(WithCr(rs), r0) == Held(rs, r0)
  {
    hide Strip;
    if rs != [] {
      var n := |rs| - 1;
      assert WithCr(rs)[..n] == WithCr(rs[..n]);
      CrlfSame(rs[..n], r0);
      StripCr(rs[n].value);
    }
  }

  // ----- string settings

  /** config_set_string_handler behind each entry: a call overwrites its setting. */
  function Settings(trace: seq<Call>): map<nat, string>
  {
    if trace == [] then map[]
    else
      var call := trace[|trace| - 1];
      Settings(trace[..|trace| - 1])[call.index := call.value]
  }

  /** The value of the last record whose name is found at the entry. */
  function LastValue(names: seq<string>, rs: seq<Record>, e: nat): Option<string>
  {
    if rs == [] then None
    else
      var r := rs[|rs| - 1];
      if Find(names, CStr(r.name)) == Some(e) then Some(CStr(r.value))
      else LastValue(names, rs[..|rs| - 1], e)
  }

  /** While no callback rejects, the settings end as the last value given for each name. */
  lemma {:induction false} LastWins(t: Table, rs: seq<Record>, e: nat)
    requires !Deliver(t, rs).failed
    ensures var m := Settings(Deliver(t, rs).trace);
      LastValue(t.names, rs, e) == if e in m then Some(m[e]) else None
  {
    if rs != [] {
      var init := rs[..|rs| - 1];
      LastWins(t, init, e);
      var before := Deliver(t, init);
      if Find(t.names, CStr(rs[|rs| - 1].name)).Some? {
        assert Deliver(t, rs).trace[..|before.trace|] == before.trace;
      }
    }
  }

  // ----- whole files

  /** CRLF and LF files lead to the same calls and the same result. */
  lemma CrlfIsLf(t: Table, rs: seq<Record>, r0: Record)
    requires AllFit(rs) && |r0.name| < MAX_VAR_NAME_LENGTH && |r0.value| < MAX_VAR_VALUE_LENGTH
    ensures var lf, crlf := Run(t, Start(r0.name, r0.value), Print(rs)), Run(t, Start(r0.name, r0.value), Print(WithCr(rs)));
      crlf.trace == lf.trace && crlf.failed == lf.failed
  {
    CrlfFits(rs);
    CrlfSame(rs, r0);
    LoadPrinted(t, rs, r0);
    LoadPrinted(t, WithCr(rs), r0);
  }

  /**
   Records with names and values come out of a file as they went in, whatever the blocks held:
   one call of the first matching callback for each known record, in order, and with string
   settings behind the callbacks the last value of each name stands.
   */
  lemma ConfigRoundTrip(t: Table, rs: seq<Record>, r0: Record, e: nat)
    requires AllFit(rs) && |r0.name| < MAX_VAR_NAME_LENGTH && |r0.value| < MAX_VAR_VALUE_LENGTH
    requires forall i | 0 <= i < |rs| :: rs[i].name != "" && rs[i].value != "" && '\r' !in rs[i].value
    ensures var end := Run(t, Start(r0.name, r0.value), Print(rs));
      && end.trace == Deliver(t, rs).trace && end.failed == Deliver(t, rs).failed
      && (!end.failed ==>
            LastValue(t.names, rs, e) == (if e in Settings(end.trace) then Some(Settings(end.trace)[e]) else None))
  {
    SeenWritten(rs, r0);
    LoadPrinted(t, rs, r0);
    if !Deliver(t, rs).failed {
      LastWins(t, rs, e);
    }
  }

  lemma {:induction false} SeenWritten(rs: seq<Record>, r0: Record)
    requires forall i | 0 <= i < |rs| :: rs[i].name != "" && rs[i].value != "" && '\r' !in rs[i].value
    ensures Seen(rs, r0) == rs
  {
    hide Strip;
    if rs != [] {
      var n := |rs| - 1;
      SeenWritten(rs[..n], r0);
      StripExactly(rs[n].value);
      assert rs == rs[..n] + [rs[n]];
    }
  }

  // ----- the limits, written out

  /** A name may have 63 characters, and the 64th fails the load. */
  lemma NameLimit(t: Table, m: Machine, s: string)
    requires m.Valid() && !m.failed && !m.inValue && m.i == 0 && '=' !in s
    ensures Run(t, m, s).failed <==> |s| >= 64
  {
    hide Run;
    if |s| >= 64 {
      RunName(t, m, s[..63]);
      RunSnoc(t, m, s[..63], s[63]);
      assert s[..64] == s[..63] + [s[63]];
      StaysFailed(t, m, s, 64);
    } else {
      RunName(t, m, s);
    }
  }

  /** A value may have 511 characters, and the 512th fails the load. */
  lemma ValueLimit(t: Table, m: Machine, v: string)
    requires m.Valid() && !m.failed && m.inValue && m.i == 0 && '\n' !in v && '\r' !in v
    ensures Run(t, m, v).failed <==> |v| >= 512
  {
    hide Run;
    if |v| >= 512 {
      assert '\r' !in v[..511];
      StripExactly(v[..511]);
      RunValue(t, m, v[..511]);
      RunSnoc(t, m, v[..511], v[511]);
      assert v[..512] == v[..511] + [v[511]];
      StaysFailed(t, m, v, 512);
    } else {
      StripExactly(v);
      RunValue(t, m, v);
    }
  }
}
