/** The static bracket-matching pass: `build_jumps` and `jump`. */
module Brackets {
  import opened Errors

  /** The two lookup tables: `forward` from a `[` to its `]`, `backward` from a `]` to its `[`. */
  datatype Jumps = Jumps(forward: map<int, int>, backward: map<int, int>)

  /** How much one instruction changes the nesting depth. */
  function Delta(c: char): int {
    if c == '[' then 1 else if c == ']' then -1 else 0
  }

  /** Nesting depth after the first `k` instructions: the number of `[` minus the number of `]` in `p[..k]`. */
  function Depth(p: string, k: nat): int
    requires k <= |p|
  {
    if k == 0 then 0 else Depth(p, k - 1) + Delta(p[k - 1])
  }

  /** No prefix of `p` holds more `]` than `[`. */
  ghost predicate NoUnderflow(p: string) {
    forall k :: 0 <= k <= |p| ==> Depth(p, k) >= 0
  }

  /** `p` is bracket-balanced: no prefix underflows and the whole has as many `[` as `]`. */
  ghost predicate WellFormed(p: string) {
    NoUnderflow(p) && Depth(p, |p|) == 0
  }

  /** The `]` at `i` is the first one that has no `[` left to match. */
  ghost predicate FirstUnderflow(p: string, i: int) {
    0 <= i < |p| && Depth(p, i + 1) < 0 && forall k :: 0 <= k <= i ==> Depth(p, k) >= 0
  }

  /** The `[` at `o` and the `]` at `c` match: the depth stays above the depth before `o`
      strictly inside the pair and comes back to it right after `c`. */
  ghost predicate Matched(p: string, o: int, c: int) {
    0 <= o < c < |p| && p[o] == '[' && p[c] == ']' &&
    Depth(p, c + 1) == Depth(p, o) &&
    forall k :: o < k <= c ==> Depth(p, k) > Depth(p, o)
  }

  /** `j` is the jump table of `p`: its keys are exactly the bracket positions, every entry
      pairs matching brackets, and the two tables are mutual inverses. */
  ghost predicate TableFor(p: string, j: Jumps) {
    (forall o :: o in j.forward <==> 0 <= o < |p| && p[o] == '[') &&
    (forall c :: c in j.backward <==> 0 <= c < |p| && p[c] == ']') &&
    (forall o :: o in j.forward ==> Matched(p, o, j.forward[o])) &&
    (forall o :: o in j.forward ==> j.forward[o] in j.backward && j.backward[j.forward[o]] == o) &&
    (forall c :: c in j.backward ==> j.backward[c] in j.forward && j.forward[j.backward[c]] == c)
  }

  /** The `[` at `o` has not met its `]` among the first `i` instructions. */
  ghost predicate Unclosed(p: string, o: int, i: int)
    requires i <= |p|
  {
    0 <= o < i && p[o] == '[' && forall k :: o < k <= i ==> Depth(p, k) > Depth(p, o)
  }

  /** The `[` at `o` is still waiting for its `]` after the first `i` instructions,
      and it sits at height `h` of the pending stack. */
  ghost predicate Pending(p: string, o: int, h: int, i: int)
    requires i <= |p|
  {
    0 <= o < i && p[o] == '[' && Depth(p, o) == h &&
    forall k :: o < k <= i ==> Depth(p, k) > h
  }

  /** What the scan of `build_jumps` knows after the first `i` instructions: no prefix has
      underflowed, the stack holds (bottom to top) exactly the pending `[` positions, and
      the tables hold exactly the pairs closed so far, each entry the inverse of the other. */
  ghost predicate ScanInv(p: string, i: int, stack: seq<int>, forward: map<int, int>, backward: map<int, int>) {
    0 <= i <= |p| &&
    (forall k :: 0 <= k <= i ==> Depth(p, k) >= 0) &&
    |stack| == Depth(p, i) &&
    (forall h :: 0 <= h < |stack| ==> Pending(p, stack[h], h, i)) &&
    (forall h :: 0 <= h < |stack| ==> stack[h] !in forward) &&
    (forall o :: 0 <= o < i && p[o] == '[' ==> o in forward || o in stack) &&
    (forall o :: o in forward ==>
       Matched(p, o, forward[o]) && forward[o] < i &&
       forward[o] in backward && backward[forward[o]] == o) &&
    (forall c :: c in backward ==>
       0 <= c < i && p[c] == ']' && backward[c] in forward && forward[backward[c]] == c) &&
    (forall c :: 0 <= c < i && p[c] == ']' ==> c in backward)
  }

  /** A `[` is pushed on top of the pending stack. */
  lemma ScanOpen(p: string, i: int, stack: seq<int>, forward: map<int, int>, backward: map<int, int>)
    requires ScanInv(p, i, stack, forward, backward) && i < |p| && p[i] == '['
    ensures ScanInv(p, i + 1, stack + [i], forward, backward)
  {
    var s := stack + [i];
    forall h | 0 <= h < |s| ensures Pending(p, s[h], h, i + 1) {
      if h < |stack| {
        assert Pending(p, stack[h], h, i);
      }
    }
    forall o | 0 <= o < i + 1 && p[o] == '[' ensures o in forward || o in s {
      if o < i && o !in forward {
        assert o in stack;
      }
    }
  }

  /** A `]` with a pending `[` closes the one on top of the stack. */
  lemma ScanClose(p: string, i: int, stack: seq<int>, forward: map<int, int>, backward: map<int, int>)
    requires ScanInv(p, i, stack, forward, backward) && i < |p| && p[i] == ']' && |stack| > 0
    ensures Matched(p, stack[|stack| - 1], i)
    ensures ScanInv(p, i + 1, stack[..|stack| - 1], forward[stack[|stack| - 1] := i],
                    backward[i := stack[|stack| - 1]])
  {
    var top := |stack| - 1;
    var o := stack[top];
    assert Pending(p, o, top, i);
    var s, f, b := stack[..top], forward[o := i], backward[i := o];
    forall h | 0 <= h < |s| ensures Pending(p, s[h], h, i + 1) && s[h] !in f {
      assert Pending(p, stack[h], h, i);
      assert Pending(p, stack[h], h, i) && Pending(p, o, top, i);
    }
    forall x | x in f
      ensures Matched(p, x, f[x]) && f[x] < i + 1 && f[x] in b && b[f[x]] == x
    {
      if x != o {
        assert forward[x] < i;
      }
    }
    forall c | c in b
      ensures 0 <= c < i + 1 && p[c] == ']' && b[c] in f && f[b[c]] == c
    {
      if c != i {
        assert backward[c] in forward && o !in forward;
      }
    }
    forall x | 0 <= x < i + 1 && p[x] == '[' ensures x in f || x in s {
      if x !in f {
        assert x in stack;
        var h :| 0 <= h < |stack| && stack[h] == x;
        assert h != top;
        assert s[h] == x;
      }
    }
  }

  /** Any other instruction leaves the stack and the tables alone. */
  lemma ScanOther(p: string, i: int, stack: seq<int>, forward: map<int, int>, backward: map<int, int>)
    requires ScanInv(p, i, stack, forward, backward) && i < |p| && p[i] != '[' && p[i] != ']'
    ensures ScanInv(p, i + 1, stack, forward, backward)
  {
    forall h | 0 <= h < |stack| ensures Pending(p, stack[h], h, i + 1) {
      assert Pending(p, stack[h], h, i);
    }
  }

  /** A `]` met with an empty stack is the first unmatched `]`. */
  lemma ScanUnderflow(p: string, i: int, stack: seq<int>, forward: map<int, int>, backward: map<int, int>)
    requires ScanInv(p, i, stack, forward, backward) && i < |p| && p[i] == ']' && |stack| == 0
    ensures FirstUnderflow(p, i)
  {
  }

  /** At the end of the scan an empty stack means the tables are the jump table of `p`. */
  lemma ScanDone(p: string, stack: seq<int>, forward: map<int, int>, backward: map<int, int>)
    requires ScanInv(p, |p|, stack, forward, backward) && |stack| == 0
    ensures TableFor(p, Jumps(forward, backward))
  {
    forall o ensures o in forward <==> 0 <= o < |p| && p[o] == '[' {
      if 0 <= o < |p| && p[o] == '[' {
        assert o in forward || o in stack;
      }
    }
  }

  /** The scan of `build_jumps`: a left-to-right pass with a stack of pending `[` positions.
      It fails exactly on the first unmatched `]`, or at the end when some `[` is still
      pending, and otherwise returns the jump table of `p`. */
  method BuildJumps(p: string) returns (r: Result<Jumps>)
    ensures r.Ok? <==> WellFormed(p)
    ensures r.Ok? ==> TableFor(p, r.value)
    ensures (r.Err? && r.error.UnmatchedClose?) <==> !NoUnderflow(p)
    ensures r.Err? && r.error.UnmatchedClose? ==> FirstUnderflow(p, r.error.at)
    ensures r == Err(UnmatchedOpen) <==> NoUnderflow(p) && Depth(p, |p|) > 0
  {
    var forward: map<int, int> := map[];
    var backward: map<int, int> := map[];
    var stack: seq<int> := [];
    var i := 0;
    while i < |p|
      invariant ScanInv(p, i, stack, forward, backward)
    {
      if p[i] == '[' {
        ScanOpen(p, i, stack, forward, backward);
        stack := stack + [i];
      } else if p[i] == ']' {
        if |stack| == 0 {
          ScanUnderflow(p, i, stack, forward, backward);
          return Err(UnmatchedClose(i));
        }
        ScanClose(p, i, stack, forward, backward);
        var opener := stack[|stack| - 1];
        stack := stack[..|stack| - 1];
        backward := backward[i := opener];
        forward := forward[opener := i];
      } else {
        ScanOther(p, i, stack, forward, backward);
      }
      i := i + 1;
    }
    if |stack| > 0 {
      return Err(UnmatchedOpen);
    }
    ScanDone(p, stack, forward, backward);
    r := Ok(Jumps(forward, backward));
  }

  /** `jump`: the entry for `k`, or the `MissingJump` error when the table has none. */
  function Jump(m: map<int, int>, k: int): (r: Result<int>)
    ensures r.Ok? <==> k in m
    ensures r.Ok? ==> r.value == m[k]
    ensures r.Err? ==> r.error == MissingJump(k)
  {
    if k in m then Ok(m[k]) else Err(MissingJump(k))
  }
  /** The depth profile of a slice is the depth profile of the whole, shifted. */
  lemma {:induction false} DepthSlice(p: string, a: int, b: int, k: nat)
    requires 0 <= a <= b <= |p| && k <= b - a
    ensures Depth(p[a..b], k) == Depth(p, a + k) - Depth(p, a)
  {
    if k > 0 {
      DepthSlice(p, a, b, k - 1);
      assert p[a..b][k - 1] == p[a + k - 1];
    }
  }

  /** A `[` and a later `]` match exactly when the instructions strictly between them are balanced. */
  lemma MatchedIffBalanced(p: string, o: int, c: int)
    requires 0 <= o < c < |p|
    ensures Matched(p, o, c) <==> p[o] == '[' && p[c] == ']' && WellFormed(p[o + 1..c])
  {
    var s := p[o + 1..c];
    forall k | 0 <= k <= |s| ensures Depth(s, k) == Depth(p, o + 1 + k) - Depth(p, o + 1) {
      DepthSlice(p, o + 1, c, k);
    }
    if p[o] == '[' && p[c] == ']' {
      if Matched(p, o, c) {
        forall k | 0 <= k <= |s| ensures Depth(s, k) >= 0 {
          assert o < o + 1 + k <= c;
        }
      }
      if WellFormed(s) {
        forall k | o < k <= c ensures Depth(p, k) > Depth(p, o) {
          assert Depth(s, k - o - 1) >= 0;
        }
      }
    }
  }

  /** A bracket has at most one partner, in either direction. */
  lemma MatchedUnique(p: string, o1: int, c1: int, o2: int, c2: int)
    requires Matched(p, o1, c1) && Matched(p, o2, c2)
    ensures o1 == o2 <==> c1 == c2
  {
    if o1 == o2 {
      assert Depth(p, c1 + 1) == Depth(p, o1) && Depth(p, c2 + 1) == Depth(p, o1);
    }
    if c1 == c2 {
      assert Depth(p, o1) == Depth(p, c1 + 1) == Depth(p, o2);
    }
  }

  /** The `[` a `]` matches is the most recent `[` still open when the `]` is reached. */
  lemma MatchedMostRecent(p: string, o: int, c: int, o2: int)
    requires Matched(p, o, c)
    ensures Unclosed(p, o, c)
    ensures Unclosed(p, o2, c) ==> o2 <= o
  {
    assert Depth(p, c + 1) == Depth(p, c) - 1;
  }

  /** A program has at most one jump table. */
  lemma TableUnique(p: string, j1: Jumps, j2: Jumps)
    requires TableFor(p, j1) && TableFor(p, j2)
    ensures j1 == j2
  {
    forall o | o in j1.forward ensures o in j2.forward && j2.forward[o] == j1.forward[o] {
      MatchedUnique(p, o, j1.forward[o], o, j2.forward[o]);
    }
    forall o | o in j2.forward ensures o in j1.forward {
      assert 0 <= o < |p| && p[o] == '[';
    }
    assert j1.forward.Keys == j2.forward.Keys;
    assert j1.forward == j2.forward;
    forall c | c in j1.backward ensures c in j2.backward && j2.backward[c] == j1.backward[c] {
      MatchedUnique(p, j1.backward[c], c, j2.backward[c], c);
    }
    forall c | c in j2.backward ensures c in j1.backward {
      assert 0 <= c < |p| && p[c] == ']';
    }
    assert j1.backward.Keys == j2.backward.Keys;
    assert j1.backward == j2.backward;
  }

  /** During the scan the stack is in increasing order and holds exactly the `[` positions
      before `i` whose `]` has not been seen yet. */
  lemma ScanStackExact(p: string, i: int, stack: seq<int>, forward: map<int, int>, backward: map<int, int>)
    requires ScanInv(p, i, stack, forward, backward)
    ensures forall a, b :: 0 <= a < b < |stack| ==> stack[a] < stack[b]
    ensures forall o :: o in stack <==> Unclosed(p, o, i)
  {
    forall a, b | 0 <= a < b < |stack| ensures stack[a] < stack[b] {
      assert Pending(p, stack[a], a, i) && Pending(p, stack[b], b, i);
    }
    forall o ensures o in stack <==> Unclosed(p, o, i) {
      if o in stack {
        var h :| 0 <= h < |stack| && stack[h] == o;
        assert Pending(p, stack[h], h, i);
      } else if 0 <= o < i && p[o] == '[' {
        assert o in forward;
        assert Matched(p, o, forward[o]) && forward[o] < i;
        assert o < forward[o] + 1 <= i && Depth(p, forward[o] + 1) == Depth(p, o);
      }
    }
  }

  /** `jump` never fails on a bracket of a program whose table it consults, and returns its partner. */
  lemma JumpOnTable(p: string, j: Jumps, k: int)
    requires TableFor(p, j) && 0 <= k < |p|
    ensures p[k] == '[' <==> Jump(j.forward, k).Ok?
    ensures p[k] == ']' <==> Jump(j.backward, k).Ok?
    ensures p[k] == '[' ==> Matched(p, k, Jump(j.forward, k).value)
    ensures p[k] == ']' ==> Matched(p, Jump(j.backward, k).value, k)
  {
    if p[k] == ']' {
      assert Matched(p, j.backward[k], j.forward[j.backward[k]]);
    }
  }
}
