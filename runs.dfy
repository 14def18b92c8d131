/** Whole runs of small programs, from a fresh tape. */
module Runs {
  import opened Errors
  import opened Brackets
  import opened Engine

  /** `+++.` prints the byte 3 and finishes. */
  lemma RunPrintsThree(j: Jumps, fuel: nat)
    requires fuel >= 4
    ensures Exec("+++.", j, Initial(), fuel) == Finished([3])
  {
    var p := "+++.";
    var s0 := Initial();
    var s1 := s0.(pc := 1, tape := s0.tape[0 := 1]);
    var s2 := s1.(pc := 2, tape := s1.tape[0 := 2]);
    var s3 := s2.(pc := 3, tape := s2.tape[0 := 3]);
    var s4 := s3.(pc := 4, out := [3]);
    assert Exec(p, j, s0, fuel) == Exec(p, j, s1, fuel - 1);
    assert Exec(p, j, s1, fuel - 1) == Exec(p, j, s2, fuel - 2);
    assert Exec(p, j, s2, fuel - 2) == Exec(p, j, s3, fuel - 3);
    assert Exec(p, j, s3, fuel - 3) == Exec(p, j, s4, fuel - 4);
  }
  /** One round of the loop `[-]` from its `-` on a non-zero cell: the cell goes down by one,
      and control returns to the `-` while the cell is non-zero or leaves past the `]`. */
  lemma CountdownRound(p: string, j: Jumps, s: State, fuel: nat)
    requires Running(p, s) && s.pc >= 1 && s.pc + 1 < |p| && p[s.pc] == '-' && p[s.pc + 1] == ']'
    requires s.pc + 1 in j.backward && j.backward[s.pc + 1] == s.pc - 1
    requires s.tape[s.ptr] != 0 && fuel >= 2
    ensures Exec(p, j, s, fuel) ==
      Exec(p, j, s.(pc := if s.tape[s.ptr] == 1 then s.pc + 2 else s.pc,
                    tape := s.tape[s.ptr := s.tape[s.ptr] - 1]), fuel - 2)
  {
    var t := s.(pc := s.pc + 1, tape := s.tape[s.ptr := s.tape[s.ptr] - 1]);
    assert Step(p, j, s) == Ok(t);
    assert Exec(p, j, s, fuel) == Exec(p, j, t, fuel - 1);
  }

  /** The last round of `[-]`, on a cell holding 1, clears it and leaves past the `]`. */
  lemma CountdownLast(p: string, j: Jumps, s: State, fuel: nat)
    requires Running(p, s) && s.pc >= 1 && s.pc + 1 < |p| && p[s.pc] == '-' && p[s.pc + 1] == ']'
    requires s.pc + 1 in j.backward && j.backward[s.pc + 1] == s.pc - 1
    requires s.tape[s.ptr] == 1 && fuel >= 2
    ensures Exec(p, j, s, fuel) == Exec(p, j, s.(pc := s.pc + 2, tape := s.tape[s.ptr := 0]), fuel - 2)
  {
    CountdownRound(p, j, s, fuel);
  }

  /** A round of `[-]` on a cell holding more than 1 hands the rest of the loop to the same
      state with that cell one less; the rest then finishes what `s` would. */
  lemma CountdownMore(p: string, j: Jumps, s: State, fuel: nat, rest: Outcome)
    requires Running(p, s) && s.pc >= 1 && s.pc + 1 < |p| && p[s.pc] == '-' && p[s.pc + 1] == ']'
    requires s.pc + 1 in j.backward && j.backward[s.pc + 1] == s.pc - 1
    requires s.tape[s.ptr] as int >= 2 && fuel >= 2 * s.tape[s.ptr] as int
    requires Exec(p, j, s.(tape := s.tape[s.ptr := s.tape[s.ptr] - 1]), fuel - 2) == rest
    requires rest == Exec(p, j, s.(pc := s.pc + 2, tape := s.tape[s.ptr := s.tape[s.ptr] - 1][s.ptr := 0]),
                          fuel - 2 - 2 * (s.tape[s.ptr] - 1) as int)
    ensures Exec(p, j, s, fuel) ==
      Exec(p, j, s.(pc := s.pc + 2, tape := s.tape[s.ptr := 0]), fuel - 2 * s.tape[s.ptr] as int)
  {
    ByteWrap(s.tape[s.ptr]);
    CountdownRound(p, j, s, fuel);
    assert s.tape[s.ptr := s.tape[s.ptr] - 1][s.ptr := 0] == s.tape[s.ptr := 0];
  }

  /** The loop `[-]` on a cell holding `v > 0` takes `2 * v` passes and leaves the cell at
      zero, with control just past its `]`. Here `s` is at the `-`. */
  lemma {:induction false} ClearLoop(p: string, j: Jumps, s: State, fuel: nat)
    requires Running(p, s) && s.pc >= 1 && s.pc + 1 < |p| && p[s.pc] == '-' && p[s.pc + 1] == ']'
    requires s.tape[s.ptr] != 0 && fuel >= 2 * s.tape[s.ptr] as int
    requires s.pc + 1 in j.backward && j.backward[s.pc + 1] == s.pc - 1
    ensures Exec(p, j, s, fuel) ==
      Exec(p, j, s.(pc := s.pc + 2, tape := s.tape[s.ptr := 0]), fuel - 2 * s.tape[s.ptr] as int)
    decreases s.tape[s.ptr] as int
  {
    var v := s.tape[s.ptr];
    if v == 1 {
      CountdownLast(p, j, s, fuel);
    } else {
      ByteWrap(v);
      var u := s.(tape := s.tape[s.ptr := v - 1]);
      ClearLoop(p, j, u, fuel - 2);
      CountdownMore(p, j, s, fuel, Exec(p, j, u, fuel - 2));
    }
  }

  /** The jump table of `+++++[-].` pairs positions 5 and 7. */
  lemma CountdownTable()
    ensures TableFor("+++++[-].", Jumps(map[5 := 7], map[7 := 5]))
  {
    var p := "+++++[-].";
    assert Depth(p, 5) == 0 && Depth(p, 6) == 1 && Depth(p, 7) == 1 && Depth(p, 8) == 0;
    assert Matched(p, 5, 7);
    forall o ensures o in map[5 := 7] <==> 0 <= o < |p| && p[o] == '[' {
      if 0 <= o < |p| {
        assert o == 0 || o == 1 || o == 2 || o == 3 || o == 4 || o == 5 || o == 6 || o == 7 || o == 8;
      }
    }
    forall c ensures c in map[7 := 5] <==> 0 <= c < |p| && p[c] == ']' {
      if 0 <= c < |p| {
        assert c == 0 || c == 1 || c == 2 || c == 3 || c == 4 || c == 5 || c == 6 || c == 7 || c == 8;
      }
    }
  }

  /** `+++++[-].` counts the cell down to zero in the loop, then prints the byte 0. */
  lemma RunPrintsZero(j: Jumps, fuel: nat)
    requires TableFor("+++++[-].", j) && fuel >= 17
    ensures Exec("+++++[-].", j, Initial(), fuel) == Finished([0])
  {
    var p := "+++++[-].";
    CountdownTable();
    TableUnique(p, j, Jumps(map[5 := 7], map[7 := 5]));
    var s0 := Initial();
    var s1 := s0.(pc := 1, tape := s0.tape[0 := 1]);
    var s2 := s1.(pc := 2, tape := s1.tape[0 := 2]);
    var s3 := s2.(pc := 3, tape := s2.tape[0 := 3]);
    var s4 := s3.(pc := 4, tape := s3.tape[0 := 4]);
    var s5 := s4.(pc := 5, tape := s4.tape[0 := 5]);
    var s6 := s5.(pc := 6);
    assert Exec(p, j, s0, fuel) == Exec(p, j, s1, fuel - 1);
    assert Exec(p, j, s1, fuel - 1) == Exec(p, j, s2, fuel - 2);
    assert Exec(p, j, s2, fuel - 2) == Exec(p, j, s3, fuel - 3);
    assert Exec(p, j, s3, fuel - 3) == Exec(p, j, s4, fuel - 4);
    assert Exec(p, j, s4, fuel - 4) == Exec(p, j, s5, fuel - 5);
    assert Exec(p, j, s5, fuel - 5) == Exec(p, j, s6, fuel - 6);
    ClearLoop(p, j, s6, fuel - 6);
    var s8 := s6.(pc := 8, tape := s6.tape[0 := 0]);
    assert Exec(p, j, s8, fuel - 16) == Exec(p, j, s8.(pc := 9, out := [0]), fuel - 17);
  }

  /** `+[-]` runs its loop once and finishes without printing. */
  lemma RunLoopOnce(j: Jumps, fuel: nat)
    requires 3 in j.backward && j.backward[3] == 1 && fuel >= 4
    ensures Exec("+[-]", j, Initial(), fuel) == Finished([])
  {
    var p := "+[-]";
    var s0 := Initial();
    var s1 := s0.(pc := 1, tape := s0.tape[0 := 1]);
    var s2 := s1.(pc := 2);
    assert Exec(p, j, s0, fuel) == Exec(p, j, s1, fuel - 1);
    assert Exec(p, j, s1, fuel - 1) == Exec(p, j, s2, fuel - 2);
    ClearLoop(p, j, s2, fuel - 2);
  }

  /** `<` moves the pointer off the start of the tape: the run finishes at once, printing nothing. */
  lemma RunFallsOffLeft(j: Jumps, fuel: nat)
    requires fuel >= 1
    ensures Exec("<", j, Initial(), fuel) == Finished([])
  {
    assert Exec("<", j, Initial(), fuel) == Exec("<", j, Initial().(pc := 1, ptr := -1), fuel - 1);
  }

  /** `.,.` prints the zero cell once and then fails on `,`, keeping what it printed. */
  lemma RunStopsOnInput(j: Jumps, fuel: nat)
    requires fuel >= 2
    ensures Exec(".,.", j, Initial(), fuel) == Failed(Unsupported, [0])
  {
    var s1 := Initial().(pc := 1, out := [0]);
    assert Exec(".,.", j, Initial(), fuel) == Exec(".,.", j, s1, fuel - 1);
  }
}
