/** Saves that interleave: when sharing a temporary file puts a torn file in place. The locked saves and
    the unlocked ones of listings and account writers go through the same .tmp names. */
module TornFiles {
  import opened Wrappers
  import opened AccountModel
  import opened AccountIndex
  import opened AccountDisk

  // ---------- One file and its temporary file ----------

  datatype Temp = Nothing | Torn | Whole

  /** What the temporary file holds, and whether the file itself is torn. */
  datatype Slot = Slot(temp: Temp, torn: bool)

  datatype Move = Tearing | Writing | Renaming | Dropping | Removing | Elsewhere

  /** A move that leaves the temporary file alone. */
  predicate Passive(m: Move) {
    m.Elsewhere? || m.Removing?
  }

  function Moved(s: Slot, m: Move): Slot {
    match m
    case Tearing => s.(temp := Torn)
    case Writing => s.(temp := Whole)
    case Renaming => if s.temp.Nothing? then s else Slot(Nothing, s.temp.Torn?)
    case Dropping => s.(temp := Nothing)
    case Removing => s.(torn := false)
    case Elsewhere => s
  }

  function MovedAll(s: Slot, ms: seq<Move>): Slot
    decreases |ms|
  {
    if ms == [] then s else Moved(MovedAll(s, ms[..|ms| - 1]), ms[|ms| - 1])
  }

  /** Rename `k` comes directly after tear `i`, passive moves aside. */
  predicate FollowsTear(ms: seq<Move>, i: nat, k: nat) {
    && i < k < |ms| && ms[i].Tearing? && ms[k].Renaming?
    && forall m | i < m < k :: Passive(ms[m])
  }

  predicate LastActsTears(ms: seq<Move>) {
    exists i | 0 <= i < |ms| :: ms[i].Tearing? && forall m | i < m < |ms| :: Passive(ms[m])
  }

  /** The temporary file is torn exactly after a tear with only passive moves since. */
  lemma {:induction false} TempTornIff(s: Slot, ms: seq<Move>)
    requires !s.temp.Torn?
    ensures MovedAll(s, ms).temp.Torn? <==> LastActsTears(ms)
    decreases |ms|
  {
    if ms != [] {
      var front, last := ms[..|ms| - 1], |ms| - 1;
      TempTornIff(s, front);
      if ms[last].Tearing? {
        assert ms[last].Tearing?;
      } else if Passive(ms[last]) {
        if i :| 0 <= i < |front| && front[i].Tearing? && forall m | i < m < |front| :: Passive(front[m]) {
          assert ms[i].Tearing? && forall m | i < m < |ms| :: Passive(ms[m]);
        }
        if i :| 0 <= i < |ms| && ms[i].Tearing? && forall m | i < m < |ms| :: Passive(ms[m]) {
          assert front[i].Tearing? && forall m | i < m < |front| :: Passive(front[m]);
        }
      }
    }
  }

  ghost predicate EverTorn(s: Slot, ms: seq<Move>) {
    exists n | 0 <= n <= |ms| :: MovedAll(s, ms[..n]).torn
  }

  ghost predicate SomeFollows(ms: seq<Move>) {
    exists i: nat, k: nat :: FollowsTear(ms, i, k)
  }

  lemma {:induction false} EverTornStep(s: Slot, front: seq<Move>, m: Move)
    ensures EverTorn(s, front + [m]) <==> EverTorn(s, front) || MovedAll(s, front + [m]).torn
  {
    var ms := front + [m];
    assert ms[..|ms|] == ms;
    forall n | 0 <= n <= |front| ensures ms[..n] == front[..n] {}
  }

  lemma FollowsStep(front: seq<Move>, m: Move)
    ensures SomeFollows(front + [m]) <==> (SomeFollows(front) || (m.Renaming? && LastActsTears(front)))
  {
    var ms := front + [m];
    if i: nat, k: nat :| FollowsTear(front, i, k) {
      assert FollowsTear(ms, i, k);
    }
    if i: nat, k: nat :| FollowsTear(ms, i, k) {
      assert forall j | i < j < k :: Passive(ms[j]);
      assert forall j | 0 <= j < |front| :: ms[j] == front[j];
      if k < |front| {
        assert forall j | i < j < k :: Passive(front[j]) by {
          forall j | i < j < k ensures Passive(front[j]) {
            assert Passive(ms[j]);
          }
        }
        assert FollowsTear(front, i, k);
      } else {
        assert front[i].Tearing? && forall j | i < j < |front| :: Passive(front[j]) by {
          forall j | i < j < |front| ensures Passive(front[j]) {
            assert Passive(ms[j]);
          }
        }
      }
    }
    if m.Renaming? && LastActsTears(front) {
      var i :| 0 <= i < |front| && front[i].Tearing? && forall j | i < j < |front| :: Passive(front[j]);
      assert FollowsTear(ms, i, |front|);
    }
  }

  /** The file is torn at some moment exactly when some rename directly follows a tear. */
  lemma {:induction false} TornIff(s: Slot, ms: seq<Move>)
    requires !s.temp.Torn? && !s.torn
    ensures EverTorn(s, ms) <==> SomeFollows(ms)
    decreases |ms|
  {
    if ms == [] {
      assert ms[..0] == [];
    } else {
      var front, m := ms[..|ms| - 1], ms[|ms| - 1];
      assert ms == front + [m];
      TornIff(s, front);
      TempTornIff(s, front);
      EverTornStep(s, front, m);
      FollowsStep(front, m);
      if !EverTorn(s, front) {
        assert front[..|front|] == front;
        assert !MovedAll(s, front).torn;
      }
    }
  }

  // ---------- The index file ----------

  function IndexMove(step: Step): Move {
    match step
    case TearIndex => Tearing
    case WriteIndex(_) => Writing
    case RenameIndex => Renaming
    case _ => Elsewhere
  }

  function IndexSlot(d: Disk): Slot {
    Slot(match d.tempIndex case Missing => Nothing case Damaged => Torn case Saved(_) => Whole, d.index.Damaged?)
  }

  function IndexMoves(steps: seq<Step>): (ms: seq<Move>)
    ensures |ms| == |steps| && forall i | 0 <= i < |ms| :: ms[i] == IndexMove(steps[i])
  {
    seq(|steps|, i requires 0 <= i < |steps| => IndexMove(steps[i]))
  }

  lemma {:induction false} IndexSlotRuns(d: Disk, steps: seq<Step>)
    ensures IndexSlot(Run(d, steps)) == MovedAll(IndexSlot(d), IndexMoves(steps))
    decreases |steps|
  {
    if steps != [] {
      var front, step := steps[..|steps| - 1], steps[|steps| - 1];
      assert steps == front + [step];
      RunConcat(d, front, [step]);
      RunThree(Run(d, front), step, step, step);
      IndexSlotRuns(d, front);
      IndexSlotStep(Run(d, front), step);
      hide IndexSlot, IndexMove, Run, Apply;
      assert IndexMoves(steps)[..|front|] == IndexMoves(front);
    }
  }

  lemma IndexSlotStep(d: Disk, step: Step)
    ensures IndexSlot(Apply(d, step)) == Moved(IndexSlot(d), IndexMove(step))
  {}

  /** A rename of the index takes a torn temporary file into place. */
  predicate IndexTornAt(steps: seq<Step>, i: nat, k: nat) {
    && i < k < |steps| && steps[i].TearIndex? && steps[k].RenameIndex?
    && forall m | i < m < k :: !steps[m].TearIndex? && !steps[m].WriteIndex? && !steps[m].RenameIndex?
  }

  /** For every interleaving of any steps, any number of saves among them: the index is damaged at some
      moment exactly when some rename of it directly follows the start of a write. */
  lemma IndexTornIff(d: Disk, steps: seq<Step>)
    requires !d.index.Damaged? && !d.tempIndex.Damaged?
    ensures (exists n | 0 <= n <= |steps| :: Run(d, steps[..n]).index == Damaged) <==>
      exists i: nat, k: nat :: IndexTornAt(steps, i, k)
  {
    var ms, slot := IndexMoves(steps), IndexSlot(d);
    forall n | 0 <= n <= |steps| ensures Run(d, steps[..n]).index == Damaged <==> MovedAll(slot, ms[..n]).torn {
      IndexSlotRuns(d, steps[..n]);
      assert IndexMoves(steps[..n]) == ms[..n];
    }
    TornIff(slot, ms);
    forall i: nat, k: nat ensures IndexTornAt(steps, i, k) <==> FollowsTear(ms, i, k) {}
  }

  // ---------- One account file ----------

  function AccountMove(step: Step, id: string): Move {
    match step
    case TearAccount(x) => if x == id then Tearing else Elsewhere
    case WriteAccount(a) => if a.id == id then Writing else Elsewhere
    case RenameAccount(x) => if x == id then Renaming else Elsewhere
    case DropAccountTemp(x) => if x == id then Dropping else Elsewhere
    case RemoveAccount(x) => if x == id then Removing else Elsewhere
    case _ => Elsewhere
  }

  predicate TornFile(files: map<string, FileState>, id: string) {
    id in files && files[id].Corrupt?
  }

  function TempOf(d: Disk, id: string): Temp {
    if id !in d.temps then Nothing else if d.temps[id].Corrupt? then Torn else Whole
  }

  function AccountSlot(d: Disk, id: string): Slot {
    Slot(TempOf(d, id), TornFile(d.files, id))
  }

  function AccountMoves(steps: seq<Step>, id: string): (ms: seq<Move>)
    ensures |ms| == |steps| && forall i | 0 <= i < |ms| :: ms[i] == AccountMove(steps[i], id)
  {
    seq(|steps|, i requires 0 <= i < |steps| => AccountMove(steps[i], id))
  }

  lemma AccountSlotStep(d: Disk, step: Step, id: string)
    ensures AccountSlot(Apply(d, step), id) == Moved(AccountSlot(d, id), AccountMove(step, id))
  {}

  lemma {:induction false} AccountSlotRuns(d: Disk, steps: seq<Step>, id: string)
    ensures AccountSlot(Run(d, steps), id) == MovedAll(AccountSlot(d, id), AccountMoves(steps, id))
    decreases |steps|
  {
    hide Apply, AccountSlot, AccountMove, Moved;
    if steps == [] {
      RunThree(d, TearIndex, TearIndex, TearIndex);
    } else {
      var front, step := steps[..|steps| - 1], steps[|steps| - 1];
      assert steps == front + [step];
      RunConcat(d, front, [step]);
      RunThree(Run(d, front), step, step, step);
      AccountSlotRuns(d, front, id);
      AccountSlotStep(Run(d, front), step, id);
      assert AccountMoves(steps, id)[..|front|] == AccountMoves(front, id);
    }
  }

  /** A rename of an account file takes a torn temporary file into place. */
  predicate AccountTornAt(steps: seq<Step>, id: string, i: nat, k: nat) {
    && i < k < |steps| && steps[i] == TearAccount(id) && steps[k] == RenameAccount(id)
    && forall m | i < m < k :: Passive(AccountMove(steps[m], id))
  }

  /** The same for each account file, removals included. */
  lemma AccountTornIff(d: Disk, steps: seq<Step>, id: string)
    requires !TornFile(d.files, id) && !TempOf(d, id).Torn?
    ensures (exists n | 0 <= n <= |steps| :: TornFile(Run(d, steps[..n]).files, id)) <==>
      exists i: nat, k: nat :: AccountTornAt(steps, id, i, k)
  {
    var ms, slot := AccountMoves(steps, id), AccountSlot(d, id);
    forall n | 0 <= n <= |steps| ensures TornFile(Run(d, steps[..n]).files, id) <==> MovedAll(slot, ms[..n]).torn {
      AccountSlotRuns(d, steps[..n], id);
      assert AccountMoves(steps[..n], id) == ms[..n];
    }
    TornIff(slot, ms);
    forall i: nat, k: nat ensures AccountTornAt(steps, id, i, k) <==> FollowsTear(ms, i, k) {}
  }

  // ---------- Saves that do tear ----------

  /** Two saves of the index: the second starts to write between the first one's write and its rename;
      every later operation fails to load the index. */
  lemma SharedTempTearsIndex(d: Disk, listed: Index, updated: Index)
    ensures var steps := SaveIndexSteps(listed)[..2] + SaveIndexSteps(updated)[..1] + SaveIndexSteps(listed)[2..];
      var torn := Run(d, steps);
      torn.index == Damaged && LoadIndex(torn.index) == Failure(IndexDamaged)
  {
    var a, b := SaveIndexSteps(listed), SaveIndexSteps(updated);
    assert a[..2] + b[..1] + a[2..] == [TearIndex, WriteIndex(listed), TearIndex] + [RenameIndex];
    RunConcat(d, [TearIndex, WriteIndex(listed), TearIndex], [RenameIndex]);
    RunThree(d, TearIndex, WriteIndex(listed), TearIndex);
    var d3 := Run(d, [TearIndex, WriteIndex(listed), TearIndex]);
    RunThree(d3, RenameIndex, RenameIndex, RenameIndex);
  }

  /** Two saves of one account, in the same way. */
  lemma SharedTempTearsAccount(d: Disk, a: Account, b: Account)
    requires a.id == b.id
    ensures var torn := Run(d, SaveAccountSteps(a)[..2] + SaveAccountSteps(b)[..1] + SaveAccountSteps(a)[2..]);
      torn.index == d.index && torn.files == d.files[a.id := Corrupt]
  {
    var s, t := SaveAccountSteps(a), SaveAccountSteps(b);
    assert s[..2] + t[..1] + s[2..] == [TearAccount(a.id), WriteAccount(a), TearAccount(a.id)] + [RenameAccount(a.id)];
    RunConcat(d, [TearAccount(a.id), WriteAccount(a), TearAccount(a.id)], [RenameAccount(a.id)]);
    RunThree(d, TearAccount(a.id), WriteAccount(a), TearAccount(a.id));
    var d3 := Run(d, [TearAccount(a.id), WriteAccount(a), TearAccount(a.id)]);
    RunThree(d3, RenameAccount(a.id), RenameAccount(a.id), RenameAccount(a.id));
  }
}
