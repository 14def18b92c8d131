/** The execution engine `bf`: a dispatch loop over `(pc, ptr)` and a byte tape. */
module Engine {
  import opened Errors
  import opened Brackets

  /** Number of cells on the tape. */
  const TAPE_LEN: int := 30000

  /** The eight instruction characters of the language. */
  predicate IsInstruction(c: char) {
    c == '+' || c == '-' || c == '>' || c == '<' || c == '[' || c == ']' || c == '.' || c == ','
  }

  /** The engine's state between two instructions; `out` is everything printed so far. */
  datatype State = State(pc: int, ptr: int, tape: seq<bv8>, out: seq<bv8>)

  /** How a run ends: cleanly, on a fatal error (with what was printed before it),
      or with its step budget spent while still running. */
  datatype Outcome =
    | Finished(out: seq<bv8>)
    | Failed(error: Error, out: seq<bv8>)
    | OutOfFuel(out: seq<bv8>)

  /** The state the engine starts in: both counters at zero, a zeroed tape, nothing printed. */
  function Initial(): (s: State)
    ensures s.pc == 0 && s.ptr == 0 && s.out == []
    ensures |s.tape| == TAPE_LEN && forall k :: 0 <= k < |s.tape| ==> s.tape[k] == 0
  {
    State(0, 0, seq(TAPE_LEN, _ => 0), [])
  }

  /** The loop guard: the engine keeps going while both counters are in range. */
  predicate Running(p: string, s: State)
    ensures Running(p, s) ==> |p| > 0 && |s.tape| > 0
  {
    0 <= s.pc < |p| && 0 <= s.ptr < |s.tape|
  }

  /** One pass of the dispatch loop on the instruction at `pc`. */
  function Step(p: string, j: Jumps, s: State): (r: Result<State>)
    requires Running(p, s)
    ensures r.Ok? ==> |r.value.tape| == |s.tape| && s.out <= r.value.out && |r.value.out| <= |s.out| + 1
    ensures r.Err? ==> p[s.pc] == ',' || p[s.pc] == '[' || p[s.pc] == ']' || !IsInstruction(p[s.pc])
  {
    var cell := s.tape[s.ptr];
    match p[s.pc]
    case '+' => Ok(s.(pc := s.pc + 1, tape := s.tape[s.ptr := cell + 1]))
    case '-' => Ok(s.(pc := s.pc + 1, tape := s.tape[s.ptr := cell - 1]))
    case '>' => Ok(s.(pc := s.pc + 1, ptr := s.ptr + 1))
    case '<' => Ok(s.(pc := s.pc + 1, ptr := s.ptr - 1))
    case '[' =>
      if cell == 0 then
        match Jump(j.forward, s.pc)
        case Ok(target) => Ok(s.(pc := target + 1))
        case Err(e) => Err(e)
      else Ok(s.(pc := s.pc + 1))
    case ']' =>
      if cell != 0 then
        match Jump(j.backward, s.pc)
        case Ok(target) => Ok(s.(pc := target + 1))
        case Err(e) => Err(e)
      else Ok(s.(pc := s.pc + 1))
    case '.' => Ok(s.(pc := s.pc + 1, out := s.out + [cell]))
    case ',' => Err(Unsupported)
    case c => Err(Unknown(c, s.pc))
  }

  /** Up to `fuel` passes of the dispatch loop from `s`. Running never shortens or
      rewrites the output: what was printed stays a prefix. */
  function Exec(p: string, j: Jumps, s: State, fuel: nat): (r: Outcome)
    ensures s.out <= r.out
    decreases fuel
  {
    if !Running(p, s) then Finished(s.out)
    else if fuel == 0 then OutOfFuel(s.out)
    else match Step(p, j, s)
      case Ok(next) => Exec(p, j, next, fuel - 1)
      case Err(e) => Failed(e, s.out)
  }

  /** The dispatch loop of `bf`, over a tape array it allocates and updates in place,
      running at most `fuel` instructions. */
  method Execute(p: string, j: Jumps, fuel: nat) returns (r: Outcome)
    ensures r == Exec(p, j, Initial(), fuel)
  {
    var tape := new bv8[TAPE_LEN](_ => 0);
    assert tape[..] == Initial().tape;
    var ptr, pc := 0, 0;
    var out: seq<bv8> := [];
    var left := fuel;
    while 0 <= pc < |p| && 0 <= ptr < tape.Length
      invariant tape.Length == TAPE_LEN
      invariant Exec(p, j, State(pc, ptr, tape[..], out), left) == Exec(p, j, Initial(), fuel)
      decreases left
    {
      if left == 0 {
        return OutOfFuel(out);
      }
      ghost var before := State(pc, ptr, tape[..], out);
      var c := p[pc];
      match c {
      case '+' =>
        tape[ptr] := tape[ptr] + 1;
      case '-' =>
        tape[ptr] := tape[ptr] - 1;
      case '>' =>
        ptr := ptr + 1;
      case '<' =>
        ptr := ptr - 1;
      case '[' =>
        if tape[ptr] == 0 {
          var target := Jump(j.forward, pc);
          if target.Err? {
            return Failed(target.error, out);
          }
          pc := target.value;
        }
      case ']' =>
        if tape[ptr] != 0 {
          var target := Jump(j.backward, pc);
          if target.Err? {
            return Failed(target.error, out);
          }
          pc := target.value;
        }
      case '.' =>
        out := out + [tape[ptr]];
      case ',' =>
        return Failed(Unsupported, out);
      case _ =>
        return Failed(Unknown(c, pc), out);
      }
      pc := pc + 1;
      left := left - 1;
      assert Step(p, j, before) == Ok(State(pc, ptr, tape[..], out));
    }
    return Finished(out);
  }

  /** `bf`: match the brackets, then run the program on a fresh tape. A bracket error is
      reported before anything runs; otherwise the run is that of the program's jump table. */
  method Bf(p: string, fuel: nat) returns (r: Outcome)
    ensures !NoUnderflow(p) ==>
      r.Failed? && r.out == [] && r.error.UnmatchedClose? && FirstUnderflow(p, r.error.at)
    ensures NoUnderflow(p) && Depth(p, |p|) > 0 ==> r == Failed(UnmatchedOpen, [])
    ensures WellFormed(p) <==> !(r.Failed? && (r.error.UnmatchedClose? || r.error.UnmatchedOpen?))
    ensures WellFormed(p) ==> exists j :: TableFor(p, j) && r == Exec(p, j, Initial(), fuel)
    ensures WellFormed(p) ==> forall j :: TableFor(p, j) ==> r == Exec(p, j, Initial(), fuel)
  {
    var jumps := BuildJumps(p);
    if jumps.Err? {
      return Failed(jumps.error, []);
    }
    r := Execute(p, jumps.value, fuel);
    ExecFailure(p, jumps.value, Initial(), fuel);
    assert TableFor(p, jumps.value);
    forall j | TableFor(p, j) ensures r == Exec(p, j, Initial(), fuel) {
      TableUnique(p, j, jumps.value);
    }
  }

  /** A pass changes at most the current cell, and the tape keeps its length. */
  lemma StepTape(p: string, j: Jumps, s: State)
    requires Running(p, s) && Step(p, j, s).Ok?
    ensures |Step(p, j, s).value.tape| == |s.tape|
    ensures forall k :: 0 <= k < |s.tape| && k != s.ptr ==> Step(p, j, s).value.tape[k] == s.tape[k]
    ensures p[s.pc] != '+' && p[s.pc] != '-' ==> Step(p, j, s).value.tape == s.tape
  {
  }

  /** `+` and `-` change the current cell modulo 256. */
  lemma StepWraps(p: string, j: Jumps, s: State)
    requires Running(p, s) && (p[s.pc] == '+' || p[s.pc] == '-')
    ensures Step(p, j, s).Ok?
    ensures p[s.pc] == '+' ==> Step(p, j, s).value.tape[s.ptr] as int == (s.tape[s.ptr] as int + 1) % 256
    ensures p[s.pc] == '-' ==> Step(p, j, s).value.tape[s.ptr] as int == (s.tape[s.ptr] as int + 255) % 256
  {
    ByteWrap(s.tape[s.ptr]);
  }

  /** `uint8_t` arithmetic on a cell, stated on its numeric value. */
  lemma ByteWrap(b: bv8)
    ensures (b + 1) as int == (b as int + 1) % 256
    ensures (b - 1) as int == (b as int + 255) % 256
  {
    if b == 255 {
      assert b + 1 == 0;
    } else {
      assert (b + 1) as int == b as int + 1;
    }
    if b == 0 {
      assert b - 1 == 255;
    } else {
      assert (b - 1) as int == b as int - 1;
    }
  }
  /** A pass moves the pointer only on `>` and `<`, and extends the output only on `.`,
      by the current cell. */
  lemma StepEffects(p: string, j: Jumps, s: State)
    requires Running(p, s) && Step(p, j, s).Ok?
    ensures Step(p, j, s).value.ptr == s.ptr + (if p[s.pc] == '>' then 1 else if p[s.pc] == '<' then -1 else 0)
    ensures Step(p, j, s).value.out == if p[s.pc] == '.' then s.out + [s.tape[s.ptr]] else s.out
  {
  }

  /** Where the next pass starts: past the partner of a `[` on a zero cell or of a `]` on a
      non-zero cell, and at the next instruction otherwise. */
  lemma StepControl(p: string, j: Jumps, s: State)
    requires Running(p, s)
    ensures p[s.pc] == '[' && s.tape[s.ptr] == 0 ==>
      if s.pc in j.forward then Step(p, j, s) == Ok(s.(pc := j.forward[s.pc] + 1))
      else Step(p, j, s) == Err(MissingJump(s.pc))
    ensures p[s.pc] == ']' && s.tape[s.ptr] != 0 ==>
      if s.pc in j.backward then Step(p, j, s) == Ok(s.(pc := j.backward[s.pc] + 1))
      else Step(p, j, s) == Err(MissingJump(s.pc))
    ensures (IsInstruction(p[s.pc]) && p[s.pc] != ',' &&
             !(p[s.pc] == '[' && s.tape[s.ptr] == 0) && !(p[s.pc] == ']' && s.tape[s.ptr] != 0)) ==>
      Step(p, j, s).Ok? && Step(p, j, s).value.pc == s.pc + 1
  {
  }

  /** `,` and characters outside the instruction set are fatal. */
  lemma StepErrors(p: string, j: Jumps, s: State)
    requires Running(p, s)
    ensures p[s.pc] == ',' ==> Step(p, j, s) == Err(Unsupported)
    ensures !IsInstruction(p[s.pc]) ==> Step(p, j, s) == Err(Unknown(p[s.pc], s.pc))
  {
  }

  /** With the program's own jump table, a bracket never misses its entry, and a taken jump
      lands right after the partner bracket, still inside the program. */
  lemma StepOnTable(p: string, j: Jumps, s: State)
    requires TableFor(p, j) && Running(p, s)
    ensures Step(p, j, s).Err? <==> p[s.pc] == ',' || !IsInstruction(p[s.pc])
    ensures p[s.pc] == '[' && s.tape[s.ptr] == 0 ==>
      Matched(p, s.pc, Step(p, j, s).value.pc - 1) && Step(p, j, s).value.pc <= |p|
    ensures p[s.pc] == ']' && s.tape[s.ptr] != 0 ==>
      Matched(p, Step(p, j, s).value.pc - 1, s.pc) && Step(p, j, s).value.pc >= 1
  {
    JumpOnTable(p, j, s.pc);
  }

  /** The errors a run can end with, and where each comes from in the program. */
  ghost predicate RuntimeFault(p: string, j: Jumps, e: Error) {
    match e
    case Unsupported => ',' in p
    case Unknown(c, k) => 0 <= k < |p| && p[k] == c && !IsInstruction(c)
    case MissingJump(k) =>
      0 <= k < |p| && ((p[k] == '[' && k !in j.forward) || (p[k] == ']' && k !in j.backward))
    case _ => false
  }

  /** A run fails only on `,`, on a character outside the instruction set, or on a bracket
      the table has no entry for; running off either range is never an error. */
  lemma {:induction false} ExecFailure(p: string, j: Jumps, s: State, fuel: nat)
    ensures Exec(p, j, s, fuel).Failed? ==> RuntimeFault(p, j, Exec(p, j, s, fuel).error)
    decreases fuel
  {
    if Running(p, s) && fuel > 0 {
      match Step(p, j, s)
      case Ok(next) =>
        ExecFailure(p, j, next, fuel - 1);
      case Err(e) =>
        StepErrors(p, j, s);
        StepControl(p, j, s);
        assert p[s.pc] in p;
    }
  }

  /** A program made only of `+-<>[].`, run with its own jump table, never fails: it
      finishes or is still running when the budget is spent. */
  lemma ExecSafe(p: string, j: Jumps, s: State, fuel: nat)
    requires TableFor(p, j)
    requires forall k :: 0 <= k < |p| ==> IsInstruction(p[k]) && p[k] != ','
    ensures !Exec(p, j, s, fuel).Failed?
  {
    ExecFailure(p, j, s, fuel);
  }

  /** A pass that takes either counter out of range ends the run successfully, with the
      output printed so far. */
  lemma ExecLeavesRange(p: string, j: Jumps, s: State, fuel: nat)
    requires Running(p, s) && fuel > 0 && Step(p, j, s).Ok? && !Running(p, Step(p, j, s).value)
    ensures Exec(p, j, s, fuel) == Finished(Step(p, j, s).value.out)
  {
  }

  /** `>` on the last cell and `<` on the first end the run successfully, without touching
      the tape. */
  lemma ExecEdgeOfTape(p: string, j: Jumps, s: State, fuel: nat)
    requires Running(p, s) && fuel > 0
    requires (p[s.pc] == '>' && s.ptr == |s.tape| - 1) || (p[s.pc] == '<' && s.ptr == 0)
    ensures Exec(p, j, s, fuel) == Finished(s.out)
  {
  }

  /** More fuel does not change a run that has already ended: a finished or failed run
      is the program's own result, whatever budget it was given. */
  lemma {:induction false} ExecFuelMono(p: string, j: Jumps, s: State, f: nat, g: nat)
    requires f <= g && !Exec(p, j, s, f).OutOfFuel?
    ensures Exec(p, j, s, g) == Exec(p, j, s, f)
    decreases f
  {
    if Running(p, s) && f > 0 {
      match Step(p, j, s)
      case Ok(next) =>
        ExecFuelMono(p, j, next, f - 1, g - 1);
      case Err(_) =>
    }
  }
}
