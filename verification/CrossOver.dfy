/** Translation of refs in one section of the file, by any number of threads without locking.
    Arrays are placed at fixed offsets; at most one of them can run past the end of the section,
    and it is reached through a cross-over mapping. Every step below is one atomic access of the
    shared table entry, and relaxed loads may return any value that coherence allows. A thread may
    also copy the entry into a new table while the others go on. */
module CrossOver {
  import opened Sections

  /** An array at `offset` in the section. */
  datatype Arr = Arr(offset: nat, size: nat)

  predicate Crosses(a: Arr) {
    a.offset + a.size > SECTION
  }

  /** The arrays of the section are not empty and do not overlap. */
  ghost predicate Placement(arrays: set<Arr>) {
    && (forall a :: a in arrays ==> a.offset < SECTION && a.size > 0)
    && (forall a, b :: a in arrays && b in arrays && a != b ==>
        a.offset + a.size <= b.offset || b.offset + b.size <= a.offset)
  }

  /** A cross-over mapping of `size` bytes of the file from offset `base` of the section on. */
  datatype Mapping = NoMapping | Mapping(base: nat, size: nat)

  datatype Pc =
    | Idle
    | Translating(a: Arr)
    | Loaded(a: Arr, expected: nat)
    | LimitMoved(a: Arr)
    | Adding(a: Arr)
    | ViaPrimary(a: Arr)
    | ViaXover(a: Arr)
    | CopyAddress(m: Mapping)
    | CopyLimit(m: Mapping, limit: nat)
    | Copied(m: Mapping, limit: nat)

  /** A thread, with the largest value of the limit it has read or written. */
  datatype Thread = Thread(pc: Pc, seen: nat)

  /** `limit` is `lowest_possible_xover_offset`, `written` holds all values it ever had, and
      `published` is what the thread had seen of it that stored the mapping. */
  datatype State = State(limit: nat, written: set<nat>, xover: Mapping, published: nat, threads: seq<Thread>)

  /** Between two calls. */
  predicate Resting(pc: Pc) {
    pc.Idle? || pc.ViaPrimary? || pc.ViaXover? || pc.Copied?
  }

  ghost predicate Init(s: State) {
    s == NewEntry(NoMapping, 0, |s.threads|)
  }

  /** An entry with this mapping and limit that no thread has used. */
  function NewEntry(m: Mapping, limit: nat, n: nat): State {
    State(limit, {limit}, m, limit, seq(n, _ => Thread(Idle, limit)))
  }

  /** A relaxed load of the limit by a thread that has seen `seen`. */
  predicate Readable(s: State, seen: nat, v: nat) {
    v in s.written && v >= seen
  }

  function NewLimit(a: Arr): nat {
    a.offset + if Crosses(a) then 0 else a.size
  }

  function With(s: State, i: nat, t: Thread): State
    requires i < |s.threads|
  {
    s.(threads := s.threads[i := t])
  }

  /** `translate` is called for an array. */
  ghost predicate Call(arrays: set<Arr>, s: State, s': State, i: nat, a: Arr) {
    && i < |s.threads| && Resting(s.threads[i].pc)
    && a in arrays && s' == With(s, i, Thread(Translating(a), s.threads[i].seen))
  }

  /** `translate_critical` loads the limit. */
  ghost predicate Critical(s: State, s': State, i: nat, v: nat) {
    && i < |s.threads| && s.threads[i].pc.Translating? && Readable(s, s.threads[i].seen, v)
    && var a := s.threads[i].pc.a;
       s' == With(s, i, Thread(if a.offset < v then ViaPrimary(a) else Loaded(a, v), v))
  }

  /** `translate_less_critical` loads the limit again. */
  ghost predicate Load(s: State, s': State, i: nat, v: nat) {
    && i < |s.threads| && s.threads[i].pc.Loaded? && Readable(s, s.threads[i].seen, v)
    && s' == With(s, i, Thread(Loaded(s.threads[i].pc.a, v), v))
  }

  /** The compare-exchange succeeds. */
  ghost predicate Exchange(s: State, s': State, i: nat) {
    && i < |s.threads| && s.threads[i].pc.Loaded?
    && var a := s.threads[i].pc.a;
       && NewLimit(a) > s.threads[i].pc.expected && s.threads[i].pc.expected == s.limit
       && s' == With(s.(limit := NewLimit(a), written := s.written + {NewLimit(a)}), i,
                     Thread(LimitMoved(a), NewLimit(a)))
  }

  /** The compare-exchange fails, possibly for no reason, and loads the limit. */
  ghost predicate Retry(s: State, s': State, i: nat, v: nat) {
    && i < |s.threads| && s.threads[i].pc.Loaded? && NewLimit(s.threads[i].pc.a) > s.threads[i].pc.expected
    && Readable(s, s.threads[i].seen, v) && s' == With(s, i, Thread(Loaded(s.threads[i].pc.a, v), v))
  }

  /** The limit is already high enough. */
  ghost predicate Leave(s: State, s': State, i: nat) {
    && i < |s.threads| && s.threads[i].pc.Loaded? && NewLimit(s.threads[i].pc.a) <= s.threads[i].pc.expected
    && s' == With(s, i, Thread(LimitMoved(s.threads[i].pc.a), s.threads[i].seen))
  }

  /** The array lies in the section, or a mapping is there, or none is seen. */
  ghost predicate Choose(s: State, s': State, i: nat) {
    && i < |s.threads| && s.threads[i].pc.LimitMoved?
    && var a, seen := s.threads[i].pc.a, s.threads[i].seen;
       || (!Crosses(a) && s' == With(s, i, Thread(ViaPrimary(a), seen)))
       || (Crosses(a) && s.xover.Mapping? && s' == With(s, i, Thread(ViaXover(a), seen)))
       || (Crosses(a) && s' == With(s, i, Thread(Adding(a), seen)))
  }

  /** `get_or_add_xover_mapping`, under the mutex. */
  ghost predicate Add(page: nat, s: State, s': State, i: nat) {
    && page > 0 && i < |s.threads| && s.threads[i].pc.Adding?
    && var a, seen := s.threads[i].pc.a, s.threads[i].seen;
       var base := a.offset / page * page;
       var mapped := if s.xover.Mapping? then s
                     else s.(xover := Mapping(base, a.offset + a.size - base), published := seen);
       s' == With(mapped, i, Thread(ViaXover(a), seen))
  }

  /** Copying the entry begins with an acquiring load of the mapping's address. It may find none
      although there is one; if it finds one, the thread has seen what was published with it. */
  ghost predicate LoadAddress(s: State, s': State, i: nat, m: Mapping) {
    && i < |s.threads| && Resting(s.threads[i].pc) && (m.Mapping? ==> m == s.xover)
    && var seen := s.threads[i].seen;
       s' == With(s, i, Thread(CopyAddress(m), if m.Mapping? && s.published > seen then s.published else seen))
  }

  /** The limit is loaded after that. */
  ghost predicate LoadLimit(s: State, s': State, i: nat, v: nat) {
    && i < |s.threads| && s.threads[i].pc.CopyAddress? && Readable(s, s.threads[i].seen, v)
    && s' == With(s, i, Thread(CopyLimit(s.threads[i].pc.m, v), v))
  }

  /** The base of the mapping is loaded last, if there was an address. */
  ghost predicate LoadBase(s: State, s': State, i: nat) {
    && i < |s.threads| && s.threads[i].pc.CopyLimit?
    && var m, v := s.threads[i].pc.m, s.threads[i].pc.limit;
       && (m.Mapping? ==> s.xover.Mapping?)
       && var copy := if m.Mapping? then Mapping(s.xover.base, m.size) else NoMapping;
          s' == With(s, i, Thread(Copied(copy, v), s.threads[i].seen))
  }

  ghost predicate Next(arrays: set<Arr>, page: nat, s: State, s': State) {
    || (exists i: nat, a: Arr :: Call(arrays, s, s', i, a))
    || (exists i: nat, v: nat :: Critical(s, s', i, v) || Load(s, s', i, v) || Retry(s, s', i, v))
    || (exists i: nat :: Exchange(s, s', i) || Leave(s, s', i) || Choose(s, s', i) || Add(page, s, s', i))
    || (exists i: nat, m: Mapping :: LoadAddress(s, s', i, m))
    || (exists i: nat, v: nat :: LoadLimit(s, s', i, v))
    || (exists i: nat :: LoadBase(s, s', i))
  }

  // ---------------------------------------------------------------- invariant

  /** The limit never passes an array that crosses the end of the section. */
  ghost predicate LimitOK(arrays: set<Arr>, v: nat) {
    forall a :: a in arrays && Crosses(a) ==> v <= a.offset
  }

  ghost predicate ThreadOK(arrays: set<Arr>, s: State, t: Thread) {
    && t.seen in s.written
    && match t.pc
       case Idle => true
       case Translating(a) => a in arrays
       case Loaded(a, expected) => a in arrays && expected == t.seen
       case LimitMoved(a) => a in arrays && t.seen >= NewLimit(a)
       case Adding(a) => a in arrays && Crosses(a) && t.seen == a.offset
       case ViaPrimary(a) => a in arrays && !Crosses(a)
       case ViaXover(a) => a in arrays && Crosses(a) && MappingFor(s.xover, a)
       case CopyAddress(m) => m.Mapping? ==> m == s.xover && t.seen == s.limit
       case CopyLimit(m, v) => v in s.written && (m.Mapping? ==> m == s.xover && v == s.limit)
       case Copied(m, v) => v in s.written && (m.Mapping? ==> m == s.xover && v == s.limit)
  }

  /** The mapping holds the array. */
  predicate MappingFor(m: Mapping, a: Arr) {
    m.Mapping? && m.base <= a.offset && a.offset + a.size <= m.base + m.size
  }

  ghost predicate Inv(arrays: set<Arr>, s: State) {
    && s.limit in s.written && LimitOK(arrays, s.limit)
    && (forall v :: v in s.written ==> v <= s.limit)
    && (forall i :: 0 <= i < |s.threads| ==> ThreadOK(arrays, s, s.threads[i]))
    && (s.xover.Mapping? ==> s.published == s.limit && exists a :: MappedArray(arrays, s.xover, s.limit, a))
  }

  /** The array that the mapping was made for. */
  predicate MappedArray(arrays: set<Arr>, m: Mapping, limit: nat, a: Arr) {
    a in arrays && Crosses(a) && MappingFor(m, a) && limit == a.offset
  }

  /** Two arrays that cross the end of the section are one. */
  lemma OneCrosses(arrays: set<Arr>, a: Arr, b: Arr)
    requires Placement(arrays) && a in arrays && b in arrays && Crosses(a) && Crosses(b)
    ensures a == b
  {
  }

  /** An array below the limit lies wholly in the section. */
  lemma BelowLimit(arrays: set<Arr>, s: State, a: Arr)
    requires Inv(arrays, s) && a in arrays && a.offset < s.limit
    ensures a.offset + a.size <= SECTION
  {
  }

  /** The new limit does not pass the crossing array either. */
  lemma NewLimitOK(arrays: set<Arr>, a: Arr)
    requires Placement(arrays) && a in arrays
    ensures LimitOK(arrays, NewLimit(a))
  {
    forall b | b in arrays && Crosses(b) ensures NewLimit(a) <= b.offset {
      if Crosses(a) {
        OneCrosses(arrays, a, b);
      }
    }
  }

  lemma InitInv(arrays: set<Arr>, s: State)
    requires Init(s)
    ensures Inv(arrays, s)
  {
  }

  /** Replacing one thread, with the shared entry unchanged. */
  lemma LocalStep(arrays: set<Arr>, s: State, i: nat, t: Thread)
    requires Inv(arrays, s) && i < |s.threads| && ThreadOK(arrays, s, t)
    ensures Inv(arrays, With(s, i, t))
  {
    var s' := With(s, i, t);
    forall j | 0 <= j < |s'.threads| ensures ThreadOK(arrays, s', s'.threads[j]) {
      assert ThreadOK(arrays, s, if j == i then t else s.threads[j]);
    }
  }

  /** With a mapping in place the limit has reached the array that crosses. */
  lemma MappedLimit(arrays: set<Arr>, s: State, v: nat)
    requires Inv(arrays, s) && s.xover.Mapping? && LimitOK(arrays, v)
    ensures v <= s.limit
  {
    var b :| MappedArray(arrays, s.xover, s.limit, b);
  }

  lemma ExchangeInv(arrays: set<Arr>, s: State, s': State, i: nat)
    requires Placement(arrays) && Inv(arrays, s) && Exchange(s, s', i)
    ensures Inv(arrays, s') && s'.limit > s.limit
  {
    var a := s.threads[i].pc.a;
    assert ThreadOK(arrays, s, s.threads[i]);
    NewLimitOK(arrays, a);
    if s.xover.Mapping? {
      MappedLimit(arrays, s, NewLimit(a));
    }
    forall j | 0 <= j < |s'.threads| ensures ThreadOK(arrays, s', s'.threads[j]) {
      assert j != i ==> ThreadOK(arrays, s, s.threads[j]);
    }
  }

  lemma AddInv(arrays: set<Arr>, page: nat, s: State, s': State, i: nat)
    requires Placement(arrays) && Inv(arrays, s) && Add(page, s, s', i)
    ensures Inv(arrays, s') && s'.limit == s.limit
  {
    assert ThreadOK(arrays, s, s.threads[i]);
    AssertedOffset(arrays, s, i);
    var a := s.threads[i].pc.a;
    PageBase(a.offset, page);
    assert MappedArray(arrays, s'.xover, s'.limit, a);
    forall j | 0 <= j < |s'.threads| ensures ThreadOK(arrays, s', s'.threads[j]) {
      assert j != i ==> ThreadOK(arrays, s, s.threads[j]);
    }
  }

  lemma PageBase(offset: nat, page: nat)
    requires page > 0
    ensures 0 <= offset / page * page <= offset
  {
  }

  /** What `get_or_add_xover_mapping` asserts when it finds a mapping: the mapping was made for the
      very array at hand, and the limit is exactly its offset. */
  lemma AssertedOffset(arrays: set<Arr>, s: State, i: nat)
    requires Placement(arrays) && Inv(arrays, s) && i < |s.threads| && s.threads[i].pc.Adding?
    ensures s.limit == s.threads[i].pc.a.offset && Readable(s, s.threads[i].seen, s.limit)
    ensures forall v :: Readable(s, s.threads[i].seen, v) ==> v == s.threads[i].pc.a.offset
    ensures s.xover.Mapping? ==> MappingFor(s.xover, s.threads[i].pc.a)
  {
    var a := s.threads[i].pc.a;
    assert ThreadOK(arrays, s, s.threads[i]);
    if s.xover.Mapping? {
      var b :| MappedArray(arrays, s.xover, s.limit, b);
      OneCrosses(arrays, a, b);
    }
  }

  lemma ChooseInv(arrays: set<Arr>, s: State, s': State, i: nat)
    requires Placement(arrays) && Inv(arrays, s) && Choose(s, s', i)
    ensures Inv(arrays, s') && s'.limit == s.limit
  {
    var a, t := s.threads[i].pc.a, s'.threads[i];
    assert ThreadOK(arrays, s, s.threads[i]);
    if s.xover.Mapping? && Crosses(a) {
      var b :| MappedArray(arrays, s.xover, s.limit, b);
      OneCrosses(arrays, a, b);
    }
    LocalStep(arrays, s, i, t);
  }

  /** Every step keeps the invariant, and the limit only grows. */
  lemma NextInv(arrays: set<Arr>, page: nat, s: State, s': State)
    requires Placement(arrays) && Inv(arrays, s) && Next(arrays, page, s, s')
    ensures Inv(arrays, s') && s'.limit >= s.limit
  {
    if i: nat, a: Arr :| Call(arrays, s, s', i, a) {
      assert ThreadOK(arrays, s, s.threads[i]);
      LocalStep(arrays, s, i, Thread(Translating(a), s.threads[i].seen));
    } else if i: nat, v: nat :| Critical(s, s', i, v) || Load(s, s', i, v) || Retry(s, s', i, v) {
      assert ThreadOK(arrays, s, s.threads[i]);
      LocalStep(arrays, s, i, s'.threads[i]);
    } else if i: nat :| Leave(s, s', i) {
      assert ThreadOK(arrays, s, s.threads[i]);
      LocalStep(arrays, s, i, s'.threads[i]);
    } else if i: nat :| Exchange(s, s', i) {
      ExchangeInv(arrays, s, s', i);
    } else if i: nat :| Choose(s, s', i) {
      ChooseInv(arrays, s, s', i);
    } else if i: nat, m: Mapping :| LoadAddress(s, s', i, m) {
      assert ThreadOK(arrays, s, s.threads[i]);
      LocalStep(arrays, s, i, s'.threads[i]);
    } else if i: nat, v: nat :| LoadLimit(s, s', i, v) {
      assert ThreadOK(arrays, s, s.threads[i]);
      LocalStep(arrays, s, i, s'.threads[i]);
    } else if i: nat :| LoadBase(s, s', i) {
      assert ThreadOK(arrays, s, s.threads[i]);
      LocalStep(arrays, s, i, s'.threads[i]);
    } else {
      var i: nat :| Add(page, s, s', i);
      AddInv(arrays, page, s, s', i);
    }
  }

  // ---------------------------------------------------------------- copies

  /** A copy made while other threads went on satisfies the invariant. */
  lemma CopyInv(arrays: set<Arr>, s: State, i: nat, n: nat)
    requires Inv(arrays, s) && i < |s.threads| && s.threads[i].pc.Copied?
    ensures Inv(arrays, NewEntry(s.threads[i].pc.m, s.threads[i].pc.limit, n))
  {
    var m, v := s.threads[i].pc.m, s.threads[i].pc.limit;
    assert ThreadOK(arrays, s, s.threads[i]);
    if m.Mapping? {
      var b :| MappedArray(arrays, s.xover, s.limit, b);
      assert MappedArray(arrays, m, v, b);
    }
  }

  /** The order of the loads matters: with the mapping, only the last value of the limit will do. */
  lemma CopyExact(arrays: set<Arr>, s: State, v: nat, n: nat)
    requires Placement(arrays) && Inv(arrays, s) && s.xover.Mapping? && v in s.written
    ensures Inv(arrays, NewEntry(s.xover, v, n)) <==> v == s.limit
  {
    var e := NewEntry(s.xover, v, n);
    var b :| MappedArray(arrays, s.xover, s.limit, b);
    if Inv(arrays, e) {
      var a :| MappedArray(arrays, e.xover, e.limit, a);
      OneCrosses(arrays, a, b);
    }
    if v == s.limit {
      assert MappedArray(arrays, e.xover, e.limit, b);
    }
  }

  // ---------------------------------------------------------------- whole runs

  ghost predicate Steps(arrays: set<Arr>, page: nat, run: seq<State>) {
    run != [] && forall k :: 0 <= k < |run| - 1 ==> Next(arrays, page, run[k], run[k + 1])
  }

  /** A thread has finished a copy at the end of the run, and `s` is the entry of the new table. */
  ghost predicate CopyOf(run: seq<State>, i: nat, s: State) {
    && run != []
    && var last := run[|run| - 1];
       && i < |last.threads| && last.threads[i].pc.Copied?
       && s == NewEntry(last.threads[i].pc.m, last.threads[i].pc.limit, |s.threads|)
  }

  /** The first state of an entry: that of an unused one, or a copy made in a run of an earlier one. */
  ghost predicate First(arrays: set<Arr>, page: nat, s: State, generation: nat)
    decreases generation
  {
    if generation == 0 then Init(s)
    else exists run, i :: CopyOf(run, i, s) && Steps(arrays, page, run) && First(arrays, page, run[0], generation - 1)
  }

  ghost predicate Behaviour(arrays: set<Arr>, page: nat, run: seq<State>, generation: nat) {
    Steps(arrays, page, run) && First(arrays, page, run[0], generation)
  }

  lemma {:induction false} FirstInv(arrays: set<Arr>, page: nat, s: State, generation: nat)
    requires Placement(arrays) && First(arrays, page, s, generation)
    ensures Inv(arrays, s)
    decreases generation
  {
    if generation == 0 {
      InitInv(arrays, s);
    } else {
      var run, i :| CopyOf(run, i, s) && Steps(arrays, page, run) && First(arrays, page, run[0], generation - 1);
      FirstInv(arrays, page, run[0], generation - 1);
      StepsInv(arrays, page, run, |run| - 1);
      CopyInv(arrays, run[|run| - 1], i, |s.threads|);
    }
  }

  lemma {:induction false} StepsInv(arrays: set<Arr>, page: nat, run: seq<State>, n: nat)
    requires Placement(arrays) && Steps(arrays, page, run) && Inv(arrays, run[0]) && n < |run|
    ensures Inv(arrays, run[n]) && forall k :: 0 <= k <= n ==> run[k].limit <= run[n].limit
    decreases n
  {
    if n > 0 {
      StepsInv(arrays, page, run, n - 1);
      NextInv(arrays, page, run[n - 1], run[n]);
    }
  }

  /** In every interleaving, also in tables into which the entry was copied: an array below the limit
      lies wholly in the section; a translation through the primary mapping is of such an array; one
      through the cross-over mapping is of the one array that crosses the end of the section, and the
      mapping holds that array; and the limit never shrinks. */
  lemma Safety(arrays: set<Arr>, page: nat, run: seq<State>, generation: nat, k: nat, n: nat, i: nat, j: nat)
    requires Placement(arrays) && Behaviour(arrays, page, run, generation)
    requires k <= n < |run| && i < |run[n].threads| && j < |run[n].threads|
    ensures run[k].limit <= run[n].limit
    ensures forall a :: a in arrays && a.offset < run[n].limit ==> a.offset + a.size <= SECTION
    ensures var t := run[n].threads[i].pc;
            && (t.ViaPrimary? ==> t.a.offset + t.a.size <= SECTION)
            && (t.ViaXover? ==> Crosses(t.a) && MappingFor(run[n].xover, t.a) && run[n].limit == t.a.offset)
            && (t.Adding? ==> run[n].limit == t.a.offset)
    ensures var t, u := run[n].threads[i].pc, run[n].threads[j].pc;
            t.ViaXover? && u.ViaXover? ==> t.a == u.a
  {
    FirstInv(arrays, page, run[0], generation);
    StepsInv(arrays, page, run, n);
    var s := run[n];
    forall a | a in arrays && a.offset < s.limit ensures a.offset + a.size <= SECTION {
      BelowLimit(arrays, s, a);
    }
    assert ThreadOK(arrays, s, s.threads[i]) && ThreadOK(arrays, s, s.threads[j]);
    if s.threads[i].pc.Adding? {
      AssertedOffset(arrays, s, i);
    }
    if s.threads[i].pc.ViaXover? {
      var b :| MappedArray(arrays, s.xover, s.limit, b);
      OneCrosses(arrays, s.threads[i].pc.a, b);
      if s.threads[j].pc.ViaXover? {
        OneCrosses(arrays, s.threads[j].pc.a, b);
      }
    }
  }
}
