/**
 What the square-root ORAM computes: a memory with at most one pending block. An access reads through the pending
 block, but every access replaces it, and only every `period`-th access commits it.
 */
module SqrtModel {
  import opened OramDefs
  import opened Geometry

  datatype Pending = Pending(address: nat, block: Block)

  datatype Machine = Machine(memory: seq<Block>, pending: Option<Pending>, counter: nat, period: nat)

  datatype StepResult = StepResult(machine: Machine, status: StatusCode, data: Block)

  /** The shelter scan looks for a normal block carrying the requested id. */
  predicate Hit(s: Machine, address: nat) {
    s.pending.Some? && s.pending.value.block.kind == Normal && s.pending.value.block.id == address
  }

  function Fetched(s: Machine, address: nat): Block
    requires address < |s.memory|
  {
    if Hit(s, address) then s.pending.value.block else s.memory[address]
  }

  function Step(s: Machine, op: Operation, address: nat, data: Block): (r: StepResult)
    ensures |r.machine.memory| == |s.memory| && r.machine.period == s.period
  {
    if address >= |s.memory| then StepResult(s, InvalidArgument, data) else
    var block := Fetched(s, address);
    if block.kind == Normal && block.id != address then StepResult(s.(pending := None), UnknownError, data) else
    var stored := if op.OpRead? then block else data;
    var after :=
      if s.counter + 1 == s.period
      then Machine(s.memory[address := stored], None, 0, s.period)
      else s.(pending := Some(Pending(address, stored)), counter := s.counter + 1);
    StepResult(after, OK, stored)
  }

  datatype Access = Access(op: Operation, address: nat, data: Block)

  function Run(s: Machine, accesses: seq<Access>): (r: (Machine, seq<(StatusCode, Block)>))
    ensures |r.1| == |accesses|
    decreases |accesses|
  {
    if accesses == [] then (s, []) else
    var a := accesses[0];
    var first := Step(s, a.op, a.address, a.data);
    var rest := Run(first.machine, accesses[1..]);
    (rest.0, [(first.status, first.data)] + rest.1)
  }

  // ----- well-formed contents ---------------------------------------------------------------------

  /** Normal blocks carry their own address. */
  ghost predicate Labelled(s: Machine) {
    && (forall a :: 0 <= a < |s.memory| && s.memory[a].kind == Normal ==> s.memory[a].id == a)
    && (s.pending.Some? ==>
          var p := s.pending.value;
          p.address < |s.memory| && (p.block.kind == Normal ==> p.block.id == p.address)
          && (p.block.kind != Normal ==> p.block == s.memory[p.address]))
  }

  /** A caller writes normal blocks under their own id. */
  predicate ProperAccess(a: Access, n: nat) {
    a.address < n && !a.op.OpInvalid? && (a.op.OpWrite? ==> a.data.kind == Normal && a.data.id == a.address)
  }

  /** The memory a reader sees: the pending block laid over the committed words. */
  function Logical(s: Machine): (r: seq<Block>)
    ensures |r| == |s.memory|
  {
    if s.pending.Some? && s.pending.value.address < |s.memory|
    then s.memory[s.pending.value.address := s.pending.value.block]
    else s.memory
  }

  function FlatNext(mem: seq<Block>, a: Access): seq<Block>
    requires a.address < |mem|
  {
    if a.op.OpWrite? then mem[a.address := a.data] else mem
  }

  /**
   Nothing is lost by an access to `address`: the pending block is absent, is that address, or is already committed.
   */
  predicate Safe(s: Machine, address: nat) {
    (s.pending.Some? && s.pending.value.address < |s.memory| && s.pending.value.address != address) ==>
      s.pending.value.block == s.memory[s.pending.value.address]
  }

  /** Every proper access returns the logical content, and it acts like a flat memory if and only if it is safe. */
  lemma StepAgainstFlatMemory(s: Machine, a: Access)
    requires Labelled(s) && ProperAccess(a, |s.memory|)
    ensures var r := Step(s, a.op, a.address, a.data);
      && r.status == OK
      && r.data == FlatNext(Logical(s), a)[a.address]
      && Labelled(r.machine)
      && (Logical(r.machine) == FlatNext(Logical(s), a) <==> Safe(s, a.address))
  {
    var r := Step(s, a.op, a.address, a.data);
    if s.pending.Some? && s.pending.value.address != a.address {
      var p := s.pending.value;
      assert Logical(r.machine)[p.address] == s.memory[p.address];
      assert FlatNext(Logical(s), a)[p.address] == p.block;
      if Safe(s, a.address) {
        assert Logical(s) == s.memory;
      }
    }
  }

  /**
   The two refusals: an address beyond the memory changes nothing; a word under a wrong id costs the pending block.
   */
  lemma StepRefused(s: Machine, op: Operation, address: nat, data: Block)
    requires !op.OpInvalid?
    ensures var r := Step(s, op, address, data);
      && (r.status == InvalidArgument <==> address >= |s.memory|)
      && (r.status == InvalidArgument ==> r.machine == s && r.data == data)
      && (r.status == UnknownError <==>
            && address < |s.memory| && !Hit(s, address)
            && s.memory[address].kind == Normal && s.memory[address].id != address)
      && (r.status == UnknownError ==>
            && r.machine.memory == s.memory && r.machine.counter == s.counter && r.machine.pending == None
            && r.data == data)
  {
  }

  // ----- read-only runs ---------------------------------------------------------------------------

  ghost predicate Clean(s: Machine) {
    Labelled(s) && (s.pending.Some? ==> s.pending.value.block == s.memory[s.pending.value.address])
  }

  /** Reads alone never disturb anything: across any number of commits they return the blocks loaded. */
  lemma {:induction false} ReadOnlyRun(s: Machine, accesses: seq<Access>)
    requires Clean(s)
    requires forall a :: a in accesses ==> a.op.OpRead? && a.address < |s.memory|
    ensures Run(s, accesses).0.memory == s.memory && Clean(Run(s, accesses).0)
    ensures |Run(s, accesses).1| == |accesses|
    ensures forall k :: 0 <= k < |accesses| ==> Run(s, accesses).1[k] == (OK, s.memory[accesses[k].address])
    decreases |accesses|
  {
    if accesses != [] {
      var a := accesses[0];
      var first := Step(s, a.op, a.address, a.data).machine;
      assert Fetched(s, a.address) == s.memory[a.address];
      assert first.memory == s.memory;
      ReadOnlyRun(first, accesses[1..]);
      assert forall k :: 1 <= k < |accesses| ==> accesses[k] == accesses[1..][k - 1];
    }
  }

  // ----- commits ----------------------------------------------------------------------------------

  /** The counter counts accesses modulo the period, so every `period`-th access commits. */
  lemma {:induction false} CommitsEveryPeriod(s: Machine, accesses: seq<Access>)
    requires Labelled(s) && s.counter < s.period
    requires forall a :: a in accesses ==> ProperAccess(a, |s.memory|)
    ensures var t := Run(s, accesses).0;
      Labelled(t) && t.counter == (s.counter + |accesses|) % s.period
    ensures |accesses| > 0 && (s.counter + |accesses|) % s.period == 0 ==> Run(s, accesses).0.pending == None
    decreases |accesses|
  {
    if accesses != [] {
      var a := accesses[0];
      StepAgainstFlatMemory(s, a);
      var first := Step(s, a.op, a.address, a.data).machine;
      CommitsEveryPeriod(first, accesses[1..]);
      WrapAround(s.counter + 1, |accesses| - 1, s.period);
    }
  }

  lemma WrapAround(c: nat, n: nat, period: nat)
    requires period > 0 && c <= period
    ensures ((if c == period then 0 else c) + n) % period == (c + n) % period
  {
    if c == period {
      DivBounds(n, period);
      assert n == (n / period) * period + n % period;
      DivUnique(period + n, period, n / period + 1);
      assert period + n == ((period + n) / period) * period + (period + n) % period;
    }
  }

  // ----- which words are read -----------------------------------------------------------------------

  function AddressesOf(accesses: seq<Access>): (r: seq<nat>)
    ensures |r| == |accesses| && forall i :: 0 <= i < |r| ==> r[i] == accesses[i].address
  {
    seq(|accesses|, i requires 0 <= i < |accesses| => accesses[i].address)
  }

  /** The addresses whose words a run reads in main memory: those that miss the shelter. */
  function MainReads(s: Machine, accesses: seq<Access>): seq<nat>
    decreases |accesses|
  {
    if accesses == [] then [] else
    var a := accesses[0];
    (if Hit(s, a.address) then [] else [a.address]) + MainReads(Step(s, a.op, a.address, a.data).machine, accesses[1..])
  }

  /** Equal addresses follow one another without another in between. */
  ghost predicate Contiguous(s: seq<nat>) {
    forall i, j, k :: 0 <= i < j < k < |s| && s[i] == s[k] ==> s[j] == s[i]
  }

  /** A sequence with every address dropped that repeats the one before it. */
  function Collapsed(s: seq<nat>, last: Option<nat>): seq<nat> {
    if s == [] then [] else (if last == Some(s[0]) then [] else [s[0]]) + Collapsed(s[1..], Some(s[0]))
  }

  /** What the shelter will recognise: the address of the pending block. */
  function Recent(s: Machine): Option<nat> {
    if s.pending.Some? then Some(s.pending.value.address) else None
  }

  lemma {:induction false} MainReadsCollapse(s: Machine, accesses: seq<Access>)
    requires Labelled(s) && s.counter + |accesses| <= s.period
    requires s.pending.Some? ==> s.pending.value.block.kind == Normal
    requires forall a :: a in accesses ==> ProperAccess(a, |s.memory|) && s.memory[a.address].kind == Normal
    ensures MainReads(s, accesses) == Collapsed(AddressesOf(accesses), Recent(s))
    decreases |accesses|
  {
    if accesses != [] {
      var a := accesses[0];
      var next := Step(s, a.op, a.address, a.data).machine;
      StepAgainstFlatMemory(s, a);
      assert AddressesOf(accesses)[1..] == AddressesOf(accesses[1..]);
      if accesses[1..] != [] {
        MainReadsCollapse(next, accesses[1..]);
      }
    }
  }

  lemma {:induction false} MainReadsRequested(s: Machine, accesses: seq<Access>)
    ensures forall x :: x in MainReads(s, accesses) ==> exists i :: 0 <= i < |accesses| && accesses[i].address == x
    decreases |accesses|
  {
    if accesses != [] {
      var a := accesses[0];
      var rest := MainReads(Step(s, a.op, a.address, a.data).machine, accesses[1..]);
      MainReadsRequested(Step(s, a.op, a.address, a.data).machine, accesses[1..]);
      forall x | x in rest
        ensures exists i :: 0 <= i < |accesses| && accesses[i].address == x
      {
        var i :| 0 <= i < |accesses| - 1 && accesses[1..][i].address == x;
        assert accesses[i + 1].address == x;
      }
    }
  }

  ghost predicate NoRepeats(s: seq<nat>) {
    forall i, j :: 0 <= i < j < |s| ==> s[i] != s[j]
  }

  lemma ContiguousCons(x: nat, s: seq<nat>)
    ensures Contiguous([x] + s) <==> Contiguous(s) && (x !in s || s[0] == x)
  {
    var t := [x] + s;
    if Contiguous(t) {
      forall i, j, k | 0 <= i < j < k < |s| && s[i] == s[k]
        ensures s[j] == s[i]
      {
        assert t[i + 1] == s[i] && t[j + 1] == s[j] && t[k + 1] == s[k];
      }
      forall k | 0 < k < |s| && s[k] == x
        ensures s[0] == x
      {
        assert t[0] == t[k + 1] && t[1] == s[0];
      }
    }
    if Contiguous(s) && (x !in s || s[0] == x) {
      forall i, j, k | 0 <= i < j < k < |t| && t[i] == t[k]
        ensures t[j] == t[i]
      {
        assert t[j] == s[j - 1] && t[k] == s[k - 1];
        if i == 0 {
          assert s[k - 1] in s && (j > 1 ==> s[0] == s[j - 1]);
        } else {
          assert t[i] == s[i - 1];
        }
      }
    }
  }

  lemma {:induction false} CollapsedMembers(s: seq<nat>, last: Option<nat>)
    ensures forall x :: x in Collapsed(s, last) ==> x in s
    ensures forall x :: x in s ==> x in Collapsed(s, last) || last == Some(x)
    decreases |s|
  {
    if s != [] {
      CollapsedMembers(s[1..], Some(s[0]));
      assert s == [s[0]] + s[1..];
    }
  }

  lemma NoRepeatsCons(x: nat, s: seq<nat>)
    ensures NoRepeats([x] + s) <==> NoRepeats(s) && x !in s
  {
    var t := [x] + s;
    if NoRepeats(t) {
      forall i, j | 0 <= i < j < |s|
        ensures s[i] != s[j]
      {
        assert t[i + 1] == s[i] && t[j + 1] == s[j];
      }
      forall i | 0 <= i < |s|
        ensures s[i] != x
      {
        assert t[0] == x && t[i + 1] == s[i];
      }
    }
  }

  lemma {:induction false} CollapsedOnce(s: seq<nat>, x: nat)
    ensures NoRepeats([x] + Collapsed(s, Some(x))) <==> Contiguous([x] + s)
    decreases |s|
  {
    hide NoRepeats, Contiguous;
    NoRepeatsCons(x, Collapsed(s, Some(x)));
    ContiguousCons(x, s);
    if s == [] {
      NothingRepeats();
    } else {
      var rest := Collapsed(s[1..], Some(s[0]));
      assert s == [s[0]] + s[1..];
      CollapsedOnce(s[1..], s[0]);
      CollapsedMembers(s[1..], Some(s[0]));
      assert Collapsed(s, Some(x)) == (if x == s[0] then [] else [s[0]]) + rest;
      assert x == s[0] ==> Collapsed(s, Some(x)) == rest;
      assert x != s[0] ==> (x in Collapsed(s, Some(x)) <==> x in s);
    }
  }

  lemma NothingRepeats()
    ensures NoRepeats([]) && Contiguous([])
  {
  }

  /** From the start of a period, no word is read twice if and only if equal addresses are accessed in one go. */
  lemma MainReadsOnce(s: Machine, accesses: seq<Access>)
    requires Labelled(s) && s.pending == None && s.counter + |accesses| <= s.period
    requires forall a :: a in accesses ==> ProperAccess(a, |s.memory|) && s.memory[a.address].kind == Normal
    ensures NoRepeats(MainReads(s, accesses)) <==> Contiguous(AddressesOf(accesses))
  {
    MainReadsCollapse(s, accesses);
    var all := AddressesOf(accesses);
    if all != [] {
      assert all == [all[0]] + all[1..];
      assert Collapsed(all, None) == [all[0]] + Collapsed(all[1..], Some(all[0]));
      CollapsedOnce(all[1..], all[0]);
    }
  }

  // ----- which schedules are safe -----------------------------------------------------------------

  /**
   A caller's rule: once an address is written, only that address is accessed until the next commit. `dirty` is the
   address written since the last commit, if any.
   */
  predicate Disciplined(accesses: seq<Access>, dirty: Option<nat>, counter: nat, period: nat) {
    accesses == [] ||
    var a := accesses[0];
    var dirty' := if counter + 1 == period then None
                  else if a.op.OpWrite? || dirty == Some(a.address) then Some(a.address)
                  else None;
    && (dirty.Some? ==> dirty.value == a.address)
    && Disciplined(accesses[1..], dirty', if counter + 1 == period then 0 else counter + 1, period)
  }

  function FlatRun(mem: seq<Block>, accesses: seq<Access>): (seq<Block>, seq<(StatusCode, Block)>)
    requires forall a :: a in accesses ==> a.address < |mem|
    decreases |accesses|
  {
    if accesses == [] then (mem, []) else
    var mem' := FlatNext(mem, accesses[0]);
    var rest := FlatRun(mem', accesses[1..]);
    (rest.0, [(OK, mem'[accesses[0].address])] + rest.1)
  }

  /** Under that rule the ORAM is a flat memory: same answers, same final content. */
  lemma {:induction false} DisciplinedRunIsFlat(s: Machine, accesses: seq<Access>, dirty: Option<nat>)
    requires Labelled(s)
    requires forall a :: a in accesses ==> a.address < |Logical(s)| && ProperAccess(a, |s.memory|)
    requires s.pending.Some?
      ==> dirty == Some(s.pending.value.address) || s.pending.value.block == s.memory[s.pending.value.address]
    requires Disciplined(accesses, dirty, s.counter, s.period)
    ensures Run(s, accesses).1 == FlatRun(Logical(s), accesses).1
    ensures Logical(Run(s, accesses).0) == FlatRun(Logical(s), accesses).0
    decreases |accesses|
  {
    if accesses != [] {
      var a := accesses[0];
      StepAgainstFlatMemory(s, a);
      var first := Step(s, a.op, a.address, a.data).machine;
      assert Safe(s, a.address);
      var dirty' := if s.counter + 1 == s.period then None
                    else if a.op.OpWrite? || dirty == Some(a.address) then Some(a.address)
                    else None;
      DisciplinedRunIsFlat(first, accesses[1..], dirty');
    }
  }

  /** Written blocks are new: none is in memory yet, and no two are the same. */
  ghost predicate FreshWrites(mem: seq<Block>, accesses: seq<Access>) {
    && (forall i :: 0 <= i < |accesses| && accesses[i].op.OpWrite? ==> accesses[i].data !in mem)
    && (forall i, j :: 0 <= i < j < |accesses| && accesses[i].op.OpWrite? && accesses[j].op.OpWrite? ==>
          accesses[i].data != accesses[j].data)
  }

  /** Every access of the run changes the logical content as a flat memory would. */
  ghost predicate FlatThroughout(s: Machine, accesses: seq<Access>)
    requires forall a :: a in accesses ==> a.address < |s.memory|
    decreases |accesses|
  {
    accesses == [] ||
    var a := accesses[0];
    var next := Step(s, a.op, a.address, a.data).machine;
    Logical(next) == FlatNext(Logical(s), a) && FlatThroughout(next, accesses[1..])
  }

  /** For runs whose writes are new, the rule is exact: the ORAM is flat throughout if and only if it is followed. */
  lemma {:induction false} FlatIffDisciplined(s: Machine, accesses: seq<Access>, dirty: Option<nat>)
    requires Labelled(s) && s.counter < s.period
    requires forall a :: a in accesses ==> a.address < |s.memory| && ProperAccess(a, |s.memory|)
    requires FreshWrites(s.memory, accesses)
    requires s.pending.Some? ==>
      forall i :: 0 <= i < |accesses| && accesses[i].op.OpWrite? ==> accesses[i].data != s.pending.value.block
    requires forall d :: dirty == Some(d) <==>
      s.pending.Some? && s.pending.value.address == d && s.pending.value.block != s.memory[s.pending.value.address]
    ensures FlatThroughout(s, accesses) <==> Disciplined(accesses, dirty, s.counter, s.period)
    decreases |accesses|
  {
    if accesses != [] {
      var a := accesses[0];
      StepAgainstFlatMemory(s, a);
      assert dirty.Some? ==> dirty == Some(dirty.value);
      if s.pending.Some? && dirty != Some(s.pending.value.address) {
        assert s.pending.value.block == s.memory[s.pending.value.address];
      }
      if Safe(s, a.address) {
        var next := Step(s, a.op, a.address, a.data).machine;
        var dirty' := if s.counter + 1 == s.period then None
                      else if a.op.OpWrite? || dirty == Some(a.address) then Some(a.address)
                      else None;
        NextIsFresh(s, accesses);
        FlatIffDisciplined(next, accesses[1..], dirty');
      }
    }
  }

  lemma NextIsFresh(s: Machine, accesses: seq<Access>)
    requires accesses != [] && Labelled(s) && ProperAccess(accesses[0], |s.memory|) && FreshWrites(s.memory, accesses)
    requires s.pending.Some? ==>
      forall i :: 0 <= i < |accesses| && accesses[i].op.OpWrite? ==> accesses[i].data != s.pending.value.block
    ensures var next := Step(s, accesses[0].op, accesses[0].address, accesses[0].data).machine;
      && FreshWrites(next.memory, accesses[1..])
      && (next.pending.Some? ==>
            forall i :: 0 <= i < |accesses| - 1 && accesses[1..][i].op.OpWrite?
              ==> accesses[1..][i].data != next.pending.value.block)
  {
    var a := accesses[0];
    var next := Step(s, a.op, a.address, a.data).machine;
    var stored := if a.op.OpRead? then Fetched(s, a.address) else a.data;
    assert forall b :: b in next.memory ==> b in s.memory || b == stored;
    assert a.op.OpRead? ==> stored in s.memory || (s.pending.Some? && stored == s.pending.value.block);
    assert forall i :: 0 <= i < |accesses| - 1 ==> accesses[1..][i] == accesses[i + 1];
  }

  /**
   Read-your-writes, exactly: write d to a, access b, read a. The read returns d if and only if b is a, or the write was
   itself the committing access, or d was already there.
   */
  lemma LostWrite(s: Machine, a: nat, d: Block, b: nat, any: Block)
    requires Labelled(s) && s.counter < s.period && a < |s.memory| && b < |s.memory|
    requires d.kind == Normal && d.id == a
    ensures var s1 := Step(s, OpWrite, a, d).machine;
      var s2 := Step(s1, OpRead, b, any).machine;
      Step(s2, OpRead, a, any).data == d <==> b == a || s.counter + 1 == s.period || s.memory[a] == d
  {
    StepAgainstFlatMemory(s, Access(OpWrite, a, d));
    var s1 := Step(s, OpWrite, a, d).machine;
    StepAgainstFlatMemory(s1, Access(OpRead, b, any));
    var s2 := Step(s1, OpRead, b, any).machine;
    StepAgainstFlatMemory(s2, Access(OpRead, a, any));
  }

  /** A concrete run that loses a write: four words, commit every second access. */
  lemma LostWriteExample()
    ensures var cell := Cell(0, Raw(seq(DATA_SIZE, _ => 0)));
      var mem := [Block(0, Normal, cell), Block(1, Normal, cell), Block(2, Invalid, cell), Block(3, Invalid, cell)];
      var d := Block(0, Normal, Cell(1, Raw(seq(DATA_SIZE, _ => 0))));
      Run(Machine(mem, None, 0, 2), [Access(OpWrite, 0, d), Access(OpRead, 1, d), Access(OpRead, 0, d)]).1[2]
        == (OK, mem[0])
  {
    var cell := Cell(0, Raw(seq(DATA_SIZE, _ => 0)));
    var mem := [Block(0, Normal, cell), Block(1, Normal, cell), Block(2, Invalid, cell), Block(3, Invalid, cell)];
    var d := Block(0, Normal, Cell(1, Raw(seq(DATA_SIZE, _ => 0))));
    var s0 := Machine(mem, None, 0, 2);
    var s1 := Step(s0, OpWrite, 0, d).machine;
    var s2 := Step(s1, OpRead, 1, d).machine;
    assert s2 == Machine(mem, None, 0, 2);
    var run := [Access(OpWrite, 0, d), Access(OpRead, 1, d), Access(OpRead, 0, d)];
    assert run[1..] == [Access(OpRead, 1, d), Access(OpRead, 0, d)] && run[1..][1..] == [Access(OpRead, 0, d)];
    assert Run(s2, run[1..][1..]).1[0] == (OK, mem[0]);
  }
}
