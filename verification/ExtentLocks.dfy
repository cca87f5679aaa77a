/**
  Neighbour lookup and coalescing under concurrency: the steps threads take on
  the page map and the mutexes, one leaf access or one mutex operation at a time.
  Descriptors are addresses that malloc may hand out again once freed; the hash
  that picks a pool mutex is any function.
 */
module ExtentLocks {

  type Hash = int -> nat

  datatype Mode = Free(pool: int) | Held(t: int)

  /**
    An extent descriptor and the pages it stands for.  An extent is `loose` while
    its holder writes its pages without the pool mutex: as a slab, or before it
    is registered.
   */
  datatype Extent = Extent(first: int, npages: nat, mode: Mode, loose: bool) {
    predicate Has(p: int) {
      first <= p < first + npages
    }

    function Last(): int {
      first + npages - 1
    }
  }

  /** A leaf of the page map: a descriptor's address, 0 for NULL, and the slab bit. */
  datatype Word = Word(ptr: int, slab: bool)

  const NULL := Word(0, false)

  /** Where a thread stands; for a merge or split `k` is its next step once it has its mutexes. */
  datatype Pc =
    | Idle
    | WantMtx(pool: int)
    | Load(addr: int, only: bool, pool: int)
    | Bit(addr: int, only: bool, pool: int, p: int)
    | Want(addr: int, only: bool, pool: int, p: int)
    | Again(addr: int, only: bool, pool: int, p: int)
    | Miss(addr: int, only: bool, pool: int, p: int)
    | Got(addr: int, pool: int, p: int, named: bool)   // `named`: an extent bore the address when it was read again
    | Chosen(addr: int, pool: int, p: int)
    | RegA(x: int)
    | RegW(x: int)
    | MergeA(a: int, b: int)
    | MergeB(a: int, b: int)
    | MergeW(a: int, b: int, mid: int, k: nat)
    | SplitA(e: int, y: int, n: nat, w: Word)
    | SplitB(e: int, y: int, n: nat, w: Word)
    | SplitW(e: int, y: int, n: nat, w: Word, k: nat)

  datatype State = State(
    pcs: map<int, Pc>,
    exts: map<int, Extent>,
    vslabs: set<int>,
    words: map<int, Word>,
    locks: map<nat, int>,     // the pool mutexes that are taken, and by whom
    mtx: map<int, int>        // the mutexes of the free lists, likewise
  ) {
    function Pc(t: int): Pc {
      if t in pcs then pcs[t] else Idle
    }

    function At(p: int): Word {
      if p in words then words[p] else NULL
    }

    predicate Mine(x: int, t: int) {
      x in exts && exts[x].mode == Held(t)
    }

    predicate HasMtx(pool: int, t: int) {
      pool in mtx && mtx[pool] == t
    }

    predicate Unused(x: int) {
      x != 0 && x !in exts && x !in vslabs
    }
  }

  function Lo(h: Hash, a: int, b: int): nat {
    if h(a) < h(b) then h(a) else h(b)
  }

  function Hi(h: Hash, a: int, b: int): nat {
    if h(a) < h(b) then h(b) else h(a)
  }

  /** The pool mutexes a thread has. */
  function Holds(h: Hash, pc: Pc): set<nat> {
    match pc
    case Again(_, _, _, p) => {h(p)}
    case Miss(_, _, _, p) => {h(p)}
    case Got(_, _, p, _) => {h(p)}
    case RegW(x) => {h(x)}
    case MergeB(a, b) => {Lo(h, a, b)}
    case MergeW(a, b, _, k) => if k <= 6 then {h(a), h(b)} else if k == 7 then {h(b)} - {h(a)} else {}
    case SplitB(e, y, _, _) => {Lo(h, e, y)}
    case SplitW(e, y, _, _, k) => if k <= 6 then {h(e), h(y)} else {h(y)} - {h(e)}
    case _ => {}
  }

  datatype Option<T> = None | Some(value: T)

  /** The pool mutex a thread waits for. */
  function Waits(h: Hash, pc: Pc): Option<nat> {
    match pc
    case Want(_, _, _, p) => Some(h(p))
    case RegA(x) => Some(h(x))
    case MergeA(a, b) => Some(Lo(h, a, b))
    case MergeB(a, b) => Some(Hi(h, a, b))
    case SplitA(e, y, _, _) => Some(Lo(h, e, y))
    case SplitB(e, y, _, _) => Some(Hi(h, e, y))
    case _ => None
  }

  // ------------------------------------------------------------------ what a page may read

  /** The leaf extent.c intends for a page of an extent that is no slab. */
  predicate Tidy(s: State, x: int, p: int)
    requires x in s.exts
  {
    s.At(p).ptr == if p == s.exts[x].first || p == s.exts[x].Last() then x else 0
  }

  predicate Rough(s: State, x: int, p: int)
    requires x in s.exts
  {
    || s.At(p).ptr == 0 || s.At(p).ptr in s.vslabs
    || (s.At(p).ptr == x && (p == s.exts[x].first || p == s.exts[x].Last()))
  }

  /** The address a page of two extents reads in the middle of their merge, before step `k`. */
  function MidMerge(first: int, mid: int, last: int, a: int, b: int, k: nat, p: int): int {
    if p == first then (if k >= 5 || mid > first + 1 then a else 0)
    else if p == last then (if k >= 3 && mid == last then 0 else b)
    else if p == mid && k < 3 then b
    else 0
  }

  /** The address a page reads in the middle of a split at `mid`, before step `k`. */
  function MidSplit(first: int, mid: int, last: int, e: int, y: int, w: int, k: nat, p: int): int {
    if p == first then (if k >= 3 then w else e)
    else if p == mid - 1 then (if k >= 4 then w else 0)
    else if p == mid && k >= 5 then y
    else if p == last then e
    else 0
  }

  predicate PageOk(s: State, x: int, p: int)
    requires x in s.exts
  {
    var e := s.exts[x];
    match e.mode
    case Free(_) => Tidy(s, x, p)
    case Held(t) =>
      match s.Pc(t)
      case MergeW(a, b, mid, k) =>
        if (x == a || x == b) && 2 <= k <= 5 && a in s.exts && b in s.exts then
          s.At(p).ptr == MidMerge(s.exts[a].first, mid, s.exts[a].first + s.exts[a].npages + s.exts[b].npages - 1, a, b, k, p)
        else if e.loose then Rough(s, x, p) else Tidy(s, x, p)
      case SplitW(a, y, n, w, k) =>
        if (x == a || x == y) && 2 <= k <= 5 && a in s.exts && y in s.exts then
          s.At(p).ptr == MidSplit(s.exts[a].first, s.exts[y].first, s.exts[y].Last(), a, y, w.ptr, k, p)
        else if e.loose then Rough(s, x, p) else Tidy(s, x, p)
      case _ => if e.loose then Rough(s, x, p) else Tidy(s, x, p)
  }

  // ------------------------------------------------------------------ the steps

  datatype Step =
    | AskMtx(pool: int) | TakeMtx | DropMtx(pool: int)
    | Search(addr: int, only: bool, pool: int) | LoadPtr | LoadBit | LockOne | Reload | Retry | Decide | Claim
    | Put(e: int, pool: int) | Take(e: int, pool: int)
    | NewSlab(v: int) | FreeSlab(v: int)
    | Fresh(x: int, first: int, n: nat) | RegLock | RegUnlock
    | Loosen(e: int) | Tighten(e: int)
    | WriteSlab(e: int, p: int, v: int) | WriteNull(e: int, p: int) | WriteEnd(e: int, p: int, slab: bool)
    | MergeGo(a: int, b: int) | MergeLock | MergeStep
    | SplitGo(e: int, y: int, n: nat, w: Word) | SplitLock | SplitStep

  predicate CanWrite(s: State, t: int, e: int, p: int) {
    s.Mine(e, t) && s.exts[e].loose && s.exts[e].Has(p) && (s.Pc(t).Idle? || s.Pc(t) == RegW(e))
  }

  ghost predicate Enabled(h: Hash, s: State, t: int, st: Step) {
    var pc := s.Pc(t);
    match st
    case AskMtx(_) => pc.Idle? && forall q :: q in s.mtx ==> s.mtx[q] != t
    case TakeMtx => pc.WantMtx? && pc.pool !in s.mtx
    case DropMtx(pool) => pc.Idle? && s.HasMtx(pool, t)
    case Search(_, _, pool) => pc.Idle? && s.HasMtx(pool, t)
    case LoadPtr => pc.Load?
    case LoadBit => pc.Bit?
    case LockOne => pc.Want? && h(pc.p) !in s.locks
    case Reload => pc.Again?
    case Retry => pc.Miss?
    case Decide => pc.Got?
    case Claim => pc.Chosen?
    case Put(e, pool) => pc.Idle? && s.HasMtx(pool, t) && s.Mine(e, t) && !s.exts[e].loose
    case Take(e, pool) => pc.Idle? && s.HasMtx(pool, t) && e in s.exts && s.exts[e].mode == Free(pool)
    case NewSlab(v) => s.Unused(v)
    case FreeSlab(v) =>
      && v in s.vslabs && (forall p :: p in s.words ==> s.words[p].ptr != v)
      && (forall u :: u in s.pcs && (s.pcs[u].SplitA? || s.pcs[u].SplitB? || s.pcs[u].SplitW?) ==> s.pcs[u].w.ptr != v)
    case Fresh(x, first, n) => pc.Idle? && s.Unused(x) && n >= 1 &&
      forall y, p :: y in s.exts && first <= p < first + n ==> !s.exts[y].Has(p)
    case RegLock => pc.RegA? && h(pc.x) !in s.locks
    case RegUnlock => pc.RegW?
    case Loosen(e) => pc.Idle? && s.Mine(e, t)
    case Tighten(e) => (pc.Idle? || pc == RegW(e)) && s.Mine(e, t) && forall p :: s.exts[e].Has(p) ==> Tidy(s, e, p)
    case WriteSlab(e, p, v) => CanWrite(s, t, e, p) && v in s.vslabs
    case WriteNull(e, p) => CanWrite(s, t, e, p)
    case WriteEnd(e, p, _) => CanWrite(s, t, e, p) && (p == s.exts[e].first || p == s.exts[e].Last())
    case MergeGo(a, b) => pc.Idle? && a != b && s.Mine(a, t) && s.Mine(b, t) && !s.exts[a].loose && !s.exts[b].loose &&
      s.exts[b].first == s.exts[a].first + s.exts[a].npages
    case MergeLock => (pc.MergeA? && Lo(h, pc.a, pc.b) !in s.locks) || (pc.MergeB? && Hi(h, pc.a, pc.b) !in s.locks)
    case MergeStep => pc.MergeW?
    case SplitGo(e, y, n, w) =>
      pc.Idle? && s.Mine(e, t) && !s.exts[e].loose && s.Unused(y) && 0 < n < s.exts[e].npages && WordFor(s, e, w)
    case SplitLock => (pc.SplitA? && Lo(h, pc.e, pc.y) !in s.locks) || (pc.SplitB? && Hi(h, pc.e, pc.y) !in s.locks)
    case SplitStep => pc.SplitW?
  }

  function Go(s: State, t: int, pc: Pc): State {
    s.(pcs := s.pcs[t := pc])
  }

  function Store(s: State, p: int, w: Word): State {
    s.(words := s.words[p := w])
  }

  function Alter(s: State, x: int, e: Extent): State {
    s.(exts := s.exts[x := e])
  }

  function Lock(s: State, k: nat, t: int): State {
    s.(locks := s.locks[k := t])
  }

  function Unlock(s: State, k: nat): State {
    s.(locks := s.locks - {k})
  }

  /** mutex_pool_lock2: one mutex when the two coincide, otherwise the lower first. */
  function MergeLockDo(h: Hash, s: State, t: int): State
    requires (s.Pc(t).MergeA? || s.Pc(t).MergeB?) && s.Pc(t).b in s.exts
  {
    var a, b := s.Pc(t).a, s.Pc(t).b;
    var k := if s.Pc(t).MergeA? then Lo(h, a, b) else Hi(h, a, b);
    Go(Lock(s, k, t), t, if s.Pc(t).MergeA? && h(a) != h(b) then MergeB(a, b) else MergeW(a, b, s.exts[b].first, 1))
  }

  function SplitLockDo(h: Hash, s: State, t: int): State
    requires s.Pc(t).SplitA? || s.Pc(t).SplitB?
  {
    var e, y, n, w := s.Pc(t).e, s.Pc(t).y, s.Pc(t).n, s.Pc(t).w;
    var k := if s.Pc(t).SplitA? then Lo(h, e, y) else Hi(h, e, y);
    Go(Lock(s, k, t), t, if s.Pc(t).SplitA? && h(e) != h(y) then SplitB(e, y, n, w) else SplitW(e, y, n, w, 1))
  }

  /** One step of extent_merge_impl with its mutexes held: four leaf writes around the size, the unlocks, the free of `b`. */
  function MergeDo(h: Hash, s: State, t: int): State
    requires s.Pc(t).MergeW? && s.Pc(t).a in s.exts && s.Pc(t).b in s.exts
  {
    var MergeW(a, b, mid, k) := s.Pc(t);
    var ea, eb := s.exts[a], s.exts[b];
    var s1 :=
      if k == 1 then Store(s, ea.Last(), NULL)
      else if k == 2 then Store(s, eb.first, NULL)
      else if k == 3 then Alter(Alter(s, b, eb.(npages := 0)), a, ea.(npages := ea.npages + eb.npages))
      else if k == 4 then Store(s, ea.first, Word(a, false))
      else if k == 5 then Store(s, ea.Last(), Word(a, false))
      else if k == 6 then Unlock(s, h(a))
      else if k == 7 then (if h(a) == h(b) then s else Unlock(s, h(b)))
      else s.(exts := s.exts - {b});
    Go(s1, t, if k <= 7 then MergeW(a, b, mid, k + 1) else Idle)
  }

  /** One step of extent_split_impl with its mutexes held: the sizes, four leaf writes, the unlocks. */
  function SplitDo(h: Hash, s: State, t: int): State
    requires s.Pc(t).SplitW? && s.Pc(t).e in s.exts && s.Pc(t).y in s.exts
    requires s.Pc(t).k == 1 ==> s.Pc(t).n <= s.exts[s.Pc(t).e].npages
  {
    var SplitW(e, y, n, w, k) := s.Pc(t);
    var ee, ey := s.exts[e], s.exts[y];
    var s1 :=
      if k == 1 then Alter(Alter(s, y, ey.(npages := ee.npages - n)), e, ee.(npages := n, loose := w.slab))
      else if k == 2 then Store(s, ee.first, w)
      else if k == 3 then Store(s, ee.Last(), w)
      else if k == 4 then Store(s, ey.first, Word(y, false))
      else if k == 5 then Store(s, ey.Last(), Word(y, false))
      else if k == 6 then Unlock(s, h(e))
      else (if h(e) == h(y) then s else Unlock(s, h(y)));
    Go(s1, t, if k <= 6 then SplitW(e, y, n, w, k + 1) else Idle)
  }

  /** What each step does. */
  function Do(h: Hash, s: State, t: int, st: Step): State {
    var pc := s.Pc(t);
    match st
    case AskMtx(pool) => Go(s, t, WantMtx(pool))
    case TakeMtx => if pc.WantMtx? then Go(s.(mtx := s.mtx[pc.pool := t]), t, Idle) else s
    case DropMtx(pool) => s.(mtx := s.mtx - {pool})
    case Search(addr, only, pool) => Go(s, t, Load(addr, only, pool))
    case LoadPtr =>
      if !pc.Load? then s
      else if s.At(pc.addr).ptr == 0 then Go(s, t, Idle)
      else Go(s, t, Bit(pc.addr, pc.only, pc.pool, s.At(pc.addr).ptr))
    case LoadBit =>
      if !pc.Bit? then s
      else if pc.only && s.At(pc.addr).slab then Go(s, t, Idle)
      else Go(s, t, Want(pc.addr, pc.only, pc.pool, pc.p))
    case LockOne => if pc.Want? then Go(Lock(s, h(pc.p), t), t, Again(pc.addr, pc.only, pc.pool, pc.p)) else s
    case Reload =>
      if !pc.Again? then s
      else if s.At(pc.addr).ptr == pc.p then Go(s, t, Got(pc.addr, pc.pool, pc.p, pc.p in s.exts))
      else Go(s, t, Miss(pc.addr, pc.only, pc.pool, pc.p))
    case Retry => if pc.Miss? then Go(Unlock(s, h(pc.p)), t, Load(pc.addr, pc.only, pc.pool)) else s
    case Decide =>
      if !pc.Got? then s
      else if pc.p in s.exts && s.exts[pc.p].mode == Free(pc.pool) then Go(Unlock(s, h(pc.p)), t, Chosen(pc.addr, pc.pool, pc.p))
      else Go(Unlock(s, h(pc.p)), t, Idle)
    case Claim => if pc.Chosen? && pc.p in s.exts then Go(Alter(s, pc.p, s.exts[pc.p].(mode := Held(t))), t, Idle) else s
    case Put(e, pool) => if e in s.exts then Alter(s, e, s.exts[e].(mode := Free(pool))) else s
    case Take(e, _) => if e in s.exts then Alter(s, e, s.exts[e].(mode := Held(t))) else s
    case NewSlab(v) => s.(vslabs := s.vslabs + {v})
    case FreeSlab(v) => s.(vslabs := s.vslabs - {v})
    case Fresh(x, first, n) => Go(Alter(s, x, Extent(first, n, Held(t), true)), t, RegA(x))
    case RegLock => if pc.RegA? then Go(Lock(s, h(pc.x), t), t, RegW(pc.x)) else s
    case RegUnlock => if pc.RegW? then Go(Unlock(s, h(pc.x)), t, Idle) else s
    case Loosen(e) => if e in s.exts then Alter(s, e, s.exts[e].(loose := true)) else s
    case Tighten(e) => if e in s.exts then Alter(s, e, s.exts[e].(loose := false)) else s
    case WriteSlab(_, p, v) => Store(s, p, Word(v, true))
    case WriteNull(_, p) => Store(s, p, NULL)
    case WriteEnd(e, p, slab) => Store(s, p, Word(e, slab))
    case MergeGo(a, b) => Go(s, t, MergeA(a, b))
    case MergeLock => if (pc.MergeA? || pc.MergeB?) && pc.b in s.exts then MergeLockDo(h, s, t) else s
    case MergeStep => if pc.MergeW? && pc.a in s.exts && pc.b in s.exts then MergeDo(h, s, t) else s
    case SplitGo(e, y, n, w) =>
      if e in s.exts then Go(Alter(s, y, Extent(s.exts[e].first + n, 0, Held(t), false)), t, SplitA(e, y, n, w)) else s
    case SplitLock => if pc.SplitA? || pc.SplitB? then SplitLockDo(h, s, t) else s
    case SplitStep =>
      if pc.SplitW? && pc.e in s.exts && pc.y in s.exts && pc.n <= s.exts[pc.e].npages then SplitDo(h, s, t) else s
  }

  // ------------------------------------------------------------------ the invariant

  /** What a thread may rely on where it stands. */
  ghost predicate PcOk(h: Hash, s: State, t: int) {
    match s.Pc(t)
    case Idle => true
    case WantMtx(_) => forall q :: q in s.mtx ==> s.mtx[q] != t
    case Load(_, _, pool) => s.HasMtx(pool, t)
    case Bit(_, _, pool, p) => s.HasMtx(pool, t) && p != 0
    case Want(_, _, pool, p) => s.HasMtx(pool, t) && p != 0
    case Again(_, _, pool, p) => s.HasMtx(pool, t) && p != 0
    case Miss(_, _, pool, p) => s.HasMtx(pool, t)
    case Got(addr, pool, p, named) =>
      && s.HasMtx(pool, t)
      && (named ==> p in s.exts && s.exts[p].Has(addr))
      && (p in s.exts && s.exts[p].mode == Free(pool) ==> named)
    case Chosen(addr, pool, p) =>
      s.HasMtx(pool, t) && p in s.exts && s.exts[p].mode == Free(pool) && s.exts[p].Has(addr)
    case RegA(x) => s.Mine(x, t) && s.exts[x].npages >= 1
    case RegW(x) => s.Mine(x, t) && s.exts[x].npages >= 1
    case MergeA(a, b) => ReadyMerge(s, t, a, b)
    case MergeB(a, b) => ReadyMerge(s, t, a, b) && h(a) != h(b)
    case MergeW(a, b, mid, k) =>
      && 1 <= k <= 8 && a != b && s.Mine(a, t) && s.Mine(b, t) && !s.exts[a].loose && !s.exts[b].loose
      && s.exts[b].first == mid && s.exts[a].npages >= 1
      && (k <= 3 ==> mid == s.exts[a].first + s.exts[a].npages && s.exts[b].npages >= 1)
      && (k > 3 ==> s.exts[b].npages == 0 && s.exts[a].first < mid <= s.exts[a].Last())
    case SplitA(e, y, n, w) => ReadySplit(s, t, e, y, n, w)
    case SplitB(e, y, n, w) => ReadySplit(s, t, e, y, n, w) && h(e) != h(y)
    case SplitW(e, y, n, w, k) =>
      && 1 <= k <= 7 && (k == 1 ==> ReadySplit(s, t, e, y, n, w))
      && (k > 1 ==> BeenSplit(s, t, e, y, n, w))
  }

  predicate WordFor(s: State, e: int, w: Word) {
    w == Word(e, false) || (w.slab && w.ptr in s.vslabs)
  }

  predicate ReadyMerge(s: State, t: int, a: int, b: int) {
    && a != b && s.Mine(a, t) && s.Mine(b, t) && !s.exts[a].loose && !s.exts[b].loose
    && s.exts[a].npages >= 1 && s.exts[b].npages >= 1 && s.exts[b].first == s.exts[a].first + s.exts[a].npages
  }

  predicate ReadySplit(s: State, t: int, e: int, y: int, n: nat, w: Word) {
    && e != y && s.Mine(e, t) && s.Mine(y, t) && !s.exts[e].loose && !s.exts[y].loose
    && 0 < n < s.exts[e].npages && s.exts[y].npages == 0 && s.exts[y].first == s.exts[e].first + n
    && WordFor(s, e, w)
  }

  predicate BeenSplit(s: State, t: int, e: int, y: int, n: nat, w: Word) {
    && e != y && s.Mine(e, t) && s.Mine(y, t) && s.exts[e].npages == n >= 1 && s.exts[y].npages >= 1
    && s.exts[y].first == s.exts[e].first + n && WordFor(s, e, w) && s.exts[e].loose == w.slab && !s.exts[y].loose
  }

  /** The extents that stand for no page because a thread at `pc` is splitting them off or has merged them away. */
  function Hollow(pc: Pc): set<int> {
    match pc
    case MergeW(_, b, _, k) => if k > 3 then {b} else {}
    case SplitA(_, y, _, _) => {y}
    case SplitB(_, y, _, _) => {y}
    case SplitW(_, y, _, _, k) => if k == 1 then {y} else {}
    case _ => {}
  }

  predicate Mid(pc: Pc) {
    (pc.MergeW? || pc.SplitW?) && 2 <= pc.k <= 5
  }

  ghost predicate Names(s: State) {
    && 0 !in s.exts && 0 !in s.vslabs && s.exts.Keys !! s.vslabs
    && (forall p :: p in s.words && s.words[p].ptr in s.vslabs ==> s.words[p].slab)
  }

  ghost predicate Apart(s: State) {
    && (forall x, y, p :: x in s.exts && y in s.exts && s.exts[x].Has(p) && s.exts[y].Has(p) ==> x == y)
    && (forall x :: x in s.exts && s.exts[x].loose ==> s.exts[x].mode.Held?)
  }

  ghost predicate Sized(s: State) {
    forall x :: x in s.exts && s.exts[x].npages == 0 ==> s.exts[x].mode.Held? && x in Hollow(s.Pc(s.exts[x].mode.t))
  }

  ghost predicate Pages(s: State) {
    && (forall x, p :: x in s.exts && s.exts[x].Has(p) ==> PageOk(s, x, p))
    && (forall p :: p in s.words && s.words[p].ptr != 0 ==> exists x :: x in s.exts && s.exts[x].Has(p))
  }

  ghost predicate Locked(h: Hash, s: State) {
    && (forall k :: k in s.locks ==> k in Holds(h, s.Pc(s.locks[k])))
    && (forall t, k :: k in Holds(h, s.Pc(t)) ==> k in s.locks && s.locks[k] == t)
  }

  ghost predicate Pcs(h: Hash, s: State) {
    forall t :: PcOk(h, s, t)
  }

  ghost predicate Inv(h: Hash, s: State) {
    Names(s) && Apart(s) && Sized(s) && Pages(s) && Locked(h, s) && Pcs(h, s)
  }

  // ------------------------------------------------------------------ what a step leaves alone

  /** Only thread `t` moves. */
  ghost predicate OnlyMoves(s: State, s': State, t: int) {
    forall u :: u != t ==> s'.Pc(u) == s.Pc(u)
  }

  /** What a step of `t` leaves every other thread: its mutexes, the extents it holds, the free extents behind its mutex, the pages of the extents it has locked, the slabs it is about to register. */
  ghost predicate Spares(h: Hash, s: State, s': State, t: int) {
    && OnlyMoves(s, s', t)
    && (forall q :: q in s.mtx && s.mtx[q] != t ==> q in s'.mtx && s'.mtx[q] == s.mtx[q])
    && (forall q :: q in s'.mtx && s'.mtx[q] != t ==> q in s.mtx && s.mtx[q] == s'.mtx[q])
    && (forall x, u :: s.Mine(x, u) && u != t ==> x in s'.exts && s'.exts[x] == s.exts[x])
    && (forall x, q, u :: x in s.exts && s.exts[x].mode == Free(q) && s.HasMtx(q, u) && u != t ==> x in s'.exts && s'.exts[x] == s.exts[x])
    && (forall x, q, u :: x in s'.exts && s'.exts[x].mode == Free(q) && s.HasMtx(q, u) && u != t ==> x in s.exts && s.exts[x].mode == Free(q))
    && (forall x, p, u :: x in s.exts && s.exts[x].Has(p) && h(x) in Holds(h, s.Pc(u)) && u != t ==> x in s'.exts && s'.exts[x].Has(p))
    && (forall u :: u != t && (s.Pc(u).SplitA? || s.Pc(u).SplitB? || s.Pc(u).SplitW?) && s.Pc(u).w.ptr in s.vslabs ==> s.Pc(u).w.ptr in s'.vslabs)
  }

  lemma OthersStand(h: Hash, s: State, s': State, t: int, u: int)
    requires PcOk(h, s, u) && Spares(h, s, s', t) && u != t
    ensures PcOk(h, s', u)
  {
    var pc := s.Pc(u);
    assert s'.Pc(u) == pc;
    match pc
    case Got(addr, pool, p, named) =>
      if named { assert s'.exts[p].Has(addr); }
    case _ =>
  }

  lemma AllStand(h: Hash, s: State, s': State, t: int)
    requires Pcs(h, s) && Spares(h, s, s', t) && PcOk(h, s', t)
    ensures Pcs(h, s')
  {
    forall u ensures PcOk(h, s', u) {
      if u != t { OthersStand(h, s, s', t, u); }
    }
  }

  /** The mutexes agree after a step of `t` that takes or gives back only its own. */
  lemma LocksFollow(h: Hash, s: State, s': State, t: int)
    requires Locked(h, s) && OnlyMoves(s, s', t)
    requires forall k :: k in s.locks && s.locks[k] != t ==> k in s'.locks && s'.locks[k] == s.locks[k]
    requires forall k :: k in s'.locks && s'.locks[k] != t ==> k in s.locks && s.locks[k] == s'.locks[k]
    requires forall k :: k in s'.locks && s'.locks[k] == t ==> k in Holds(h, s'.Pc(t))
    requires forall k :: k in Holds(h, s'.Pc(t)) ==> k in s'.locks && s'.locks[k] == t
    ensures Locked(h, s')
  {
  }

  /** A step that changes no extent, slab or leaf, and neither enters nor leaves the middle of a merge or split. */
  lemma Quiet(s: State, s': State, t: int)
    requires Names(s) && Apart(s) && Sized(s) && Pages(s) && OnlyMoves(s, s', t)
    requires s'.exts == s.exts && s'.vslabs == s.vslabs && s'.words == s.words
    requires !Mid(s.Pc(t)) && !Mid(s'.Pc(t)) && Hollow(s.Pc(t)) == Hollow(s'.Pc(t))
    ensures Names(s') && Apart(s') && Sized(s') && Pages(s')
  {
    hide PageOk, Mid, Hollow;
    forall x, p | x in s'.exts && s'.exts[x].Has(p) ensures PageOk(s', x, p) {
      assert PageOk(s, x, p);
      QuietPage(s, s', t, x, p);
    }
    QuietSized(s, s', t);
  }

  lemma QuietPage(s: State, s': State, t: int, x: int, p: int)
    requires x in s.exts && PageOk(s, x, p) && OnlyMoves(s, s', t) && !Mid(s.Pc(t)) && !Mid(s'.Pc(t))
    requires s'.exts == s.exts && s'.vslabs == s.vslabs && s'.words == s.words
    ensures PageOk(s', x, p)
  {
    hide MidMerge, MidSplit;
  }

  lemma QuietSized(s: State, s': State, t: int)
    requires Sized(s) && OnlyMoves(s, s', t) && s'.exts == s.exts && Hollow(s.Pc(t)) == Hollow(s'.Pc(t))
    ensures Sized(s')
  {
    hide Hollow;
  }

  // ------------------------------------------------------------------ lookup

  /**
    The heart of the lookup: once a thread has the mutex of an address and reads
    it again at the page, an extent by that address owns the page.  A merge or
    split that is halfway through the page has that mutex itself.
   */
  lemma Reread(h: Hash, s: State, t: int)
    requires Inv(h, s) && s.Pc(t).Again? && s.At(s.Pc(t).addr).ptr == s.Pc(t).p && s.Pc(t).p in s.exts
    ensures s.exts[s.Pc(t).p].Has(s.Pc(t).addr)
  {
    hide Names, Apart, Sized;
    var addr, p := s.Pc(t).addr, s.Pc(t).p;
    assert PcOk(h, s, t) && p != 0 && addr in s.words && p !in s.vslabs by { assert Names(s); NamesApart(s, p); }
    var x :| x in s.exts && s.exts[x].Has(addr);
    assert PageOk(s, x, addr);
    match s.exts[x].mode
    case Free(_) =>
    case Held(u) =>
      assert PcOk(h, s, u);
      if Mid(s.Pc(u)) && x != p {
        MidNames(h, s, u, x, addr);
        NotBoth(h, s, t, u, h(p));
      }
  }

  lemma NotBoth(h: Hash, s: State, t: int, u: int, k: nat)
    requires Locked(h, s) && k in Holds(h, s.Pc(t)) && k in Holds(h, s.Pc(u))
    ensures t == u
  {
    assert k in s.locks && s.locks[k] == t;
    assert k in s.locks && s.locks[k] == u;
  }

  lemma NamesApart(s: State, p: int)
    requires Names(s) && p in s.exts
    ensures p !in s.vslabs
  {
  }

  /** In the middle of a merge or split a page names nothing, an extent whose mutex the thread has, or a slab. */
  lemma MidNames(h: Hash, s: State, u: int, x: int, p: int)
    requires Inv(h, s) && Mid(s.Pc(u)) && s.Mine(x, u) && s.exts[x].Has(p)
    ensures s.At(p).ptr == 0 || s.At(p).ptr in s.vslabs || s.At(p).ptr == x || h(s.At(p).ptr) in Holds(h, s.Pc(u))
  {
    assert PageOk(s, x, p) && PcOk(h, s, u);
  }

  lemma SameExts(h: Hash, s: State, s': State, t: int)
    requires s'.exts == s.exts && s'.vslabs == s.vslabs && s'.mtx == s.mtx && s'.pcs == s.pcs[t := s'.Pc(t)]
    ensures Spares(h, s, s', t)
  {
  }

  /** A step that only moves a thread and its mutexes. */
  lemma QuietKeeps(h: Hash, s: State, s': State, t: int)
    requires Inv(h, s) && Spares(h, s, s', t) && PcOk(h, s', t)
    requires s'.exts == s.exts && s'.vslabs == s.vslabs && s'.words == s.words
    requires !Mid(s.Pc(t)) && !Mid(s'.Pc(t)) && Hollow(s.Pc(t)) == Hollow(s'.Pc(t))
    requires forall k :: k in s.locks && s.locks[k] != t ==> k in s'.locks && s'.locks[k] == s.locks[k]
    requires forall k :: k in s'.locks && s'.locks[k] != t ==> k in s.locks && s.locks[k] == s'.locks[k]
    requires forall k :: k in s'.locks && s'.locks[k] == t ==> k in Holds(h, s'.Pc(t))
    requires forall k :: k in Holds(h, s'.Pc(t)) ==> k in s'.locks && s'.locks[k] == t
    ensures Inv(h, s')
  {
    hide Names, Apart, Sized, Pages, Spares, PcOk, Locked, Pcs;
    assert OnlyMoves(s, s', t) by { SparesMoves(h, s, s', t); }
    Quiet(s, s', t);
    LocksFollow(h, s, s', t);
    AllStand(h, s, s', t);
  }

  lemma SparesMoves(h: Hash, s: State, s': State, t: int)
    requires Spares(h, s, s', t)
    ensures OnlyMoves(s, s', t)
  {
  }

  /** The mutexes of a thread that has none. */
  lemma NoLocks(h: Hash, s: State, t: int)
    requires Locked(h, s)
    ensures forall k :: k in s.locks && s.locks[k] == t ==> k in Holds(h, s.Pc(t))
    ensures forall k :: k in Holds(h, s.Pc(t)) ==> k in s.locks && s.locks[k] == t
  {
  }

  lemma AskMtxKeeps(h: Hash, s: State, t: int, pool: int)
    requires Inv(h, s) && Enabled(h, s, t, AskMtx(pool))
    ensures Inv(h, Do(h, s, t, AskMtx(pool)))
  {
    hide Names, Apart, Sized, Pages, Locked, Spares;
    NoLocks(h, s, t);
    SameExts(h, s, Do(h, s, t, AskMtx(pool)), t);
    QuietKeeps(h, s, Do(h, s, t, AskMtx(pool)), t);
  }

  lemma TakeMtxKeeps(h: Hash, s: State, t: int)
    requires Inv(h, s) && Enabled(h, s, t, TakeMtx)
    ensures Inv(h, Do(h, s, t, TakeMtx))
  {
    hide Names, Apart, Sized, Pages, Locked, Spares, PcOk;
    NoLocks(h, s, t);
    var s' := Do(h, s, t, TakeMtx);
    MtxSpares(h, s, s', t);
    IdleOk(h, s', t);
    QuietKeeps(h, s, s', t);
  }

  lemma DropMtxKeeps(h: Hash, s: State, t: int, pool: int)
    requires Inv(h, s) && Enabled(h, s, t, DropMtx(pool))
    ensures Inv(h, Do(h, s, t, DropMtx(pool)))
  {
    hide Names, Apart, Sized, Pages, Locked, Spares, PcOk;
    NoLocks(h, s, t);
    var s' := Do(h, s, t, DropMtx(pool));
    MtxSpares(h, s, s', t);
    IdleOk(h, s', t);
    QuietKeeps(h, s, s', t);
  }

  lemma MtxSpares(h: Hash, s: State, s': State, t: int)
    requires s'.exts == s.exts && s'.vslabs == s.vslabs && OnlyMoves(s, s', t)
    requires forall q :: q in s.mtx && s.mtx[q] != t ==> q in s'.mtx && s'.mtx[q] == s.mtx[q]
    requires forall q :: q in s'.mtx && s'.mtx[q] != t ==> q in s.mtx && s.mtx[q] == s'.mtx[q]
    ensures Spares(h, s, s', t)
  {
  }

  lemma IdleOk(h: Hash, s: State, t: int)
    requires s.Pc(t).Idle?
    ensures PcOk(h, s, t)
  {
  }

  lemma LoadKeeps(h: Hash, s: State, t: int, st: Step)
    requires Inv(h, s) && Enabled(h, s, t, st) && (st.Search? || st.LoadPtr?)
    ensures Inv(h, Do(h, s, t, st))
  {
    hide Names, Apart, Sized, Pages, Locked, Spares;
    NoLocks(h, s, t);
    assert PcOk(h, s, t);
    SameExts(h, s, Do(h, s, t, st), t);
    QuietKeeps(h, s, Do(h, s, t, st), t);
  }

  lemma LoadBitKeeps(h: Hash, s: State, t: int)
    requires Inv(h, s) && Enabled(h, s, t, LoadBit)
    ensures Inv(h, Do(h, s, t, LoadBit))
  {
    hide Names, Apart, Sized, Pages, Locked, Spares;
    NoLocks(h, s, t);
    assert PcOk(h, s, t);
    SameExts(h, s, Do(h, s, t, LoadBit), t);
    QuietKeeps(h, s, Do(h, s, t, LoadBit), t);
  }

  lemma LockOneKeeps(h: Hash, s: State, t: int)
    requires Inv(h, s) && Enabled(h, s, t, LockOne)
    ensures Inv(h, Do(h, s, t, LockOne))
  {
    hide Names, Apart, Sized, Pages, Locked, Spares;
    NoLocks(h, s, t);
    assert PcOk(h, s, t);
    SameExts(h, s, Do(h, s, t, LockOne), t);
    QuietKeeps(h, s, Do(h, s, t, LockOne), t);
  }

  lemma ReloadKeeps(h: Hash, s: State, t: int)
    requires Inv(h, s) && Enabled(h, s, t, Reload)
    ensures Inv(h, Do(h, s, t, Reload))
  {
    hide Names, Apart, Sized, Pages, Locked, Spares;
    NoLocks(h, s, t);
    assert PcOk(h, s, t);
    if s.At(s.Pc(t).addr).ptr == s.Pc(t).p && s.Pc(t).p in s.exts { Reread(h, s, t); }
    SameExts(h, s, Do(h, s, t, Reload), t);
    QuietKeeps(h, s, Do(h, s, t, Reload), t);
  }

  lemma ReleaseKeeps(h: Hash, s: State, t: int, st: Step)
    requires Inv(h, s) && Enabled(h, s, t, st) && (st.Retry? || st.Decide? || st.RegUnlock?)
    ensures Inv(h, Do(h, s, t, st))
  {
    hide Names, Apart, Sized, Pages, Locked, Spares;
    NoLocks(h, s, t);
    assert PcOk(h, s, t);
    SameExts(h, s, Do(h, s, t, st), t);
    QuietKeeps(h, s, Do(h, s, t, st), t);
  }

  lemma RegLockKeeps(h: Hash, s: State, t: int)
    requires Inv(h, s) && Enabled(h, s, t, RegLock)
    ensures Inv(h, Do(h, s, t, RegLock))
  {
    hide Names, Apart, Sized, Pages, Locked, Spares;
    NoLocks(h, s, t);
    assert PcOk(h, s, t);
    SameExts(h, s, Do(h, s, t, RegLock), t);
    QuietKeeps(h, s, Do(h, s, t, RegLock), t);
  }

  lemma MergeGoKeeps(h: Hash, s: State, t: int, a: int, b: int)
    requires Inv(h, s) && s.Pc(t).Idle? && ReadyMerge(s, t, a, b)
    ensures Inv(h, Go(s, t, MergeA(a, b)))
  {
    hide Names, Apart, Sized, Pages, Locked, Spares;
    NoLocks(h, s, t);
    SameExts(h, s, Go(s, t, MergeA(a, b)), t);
    QuietKeeps(h, s, Go(s, t, MergeA(a, b)), t);
  }

  lemma MergeLockKeeps(h: Hash, s: State, t: int)
    requires Inv(h, s) && (s.Pc(t).MergeA? || s.Pc(t).MergeB?) && s.Pc(t).b in s.exts
    requires (if s.Pc(t).MergeA? then Lo(h, s.Pc(t).a, s.Pc(t).b) else Hi(h, s.Pc(t).a, s.Pc(t).b)) !in s.locks
    ensures Inv(h, MergeLockDo(h, s, t))
  {
    hide Names, Apart, Sized, Pages, Locked, Spares;
    NoLocks(h, s, t);
    assert PcOk(h, s, t);
    SameExts(h, s, MergeLockDo(h, s, t), t);
    QuietKeeps(h, s, MergeLockDo(h, s, t), t);
  }

  lemma SplitLockKeeps(h: Hash, s: State, t: int)
    requires Inv(h, s) && (s.Pc(t).SplitA? || s.Pc(t).SplitB?)
    requires (if s.Pc(t).SplitA? then Lo(h, s.Pc(t).e, s.Pc(t).y) else Hi(h, s.Pc(t).e, s.Pc(t).y)) !in s.locks
    ensures Inv(h, SplitLockDo(h, s, t))
  {
    hide Names, Apart, Sized, Pages, Locked, Spares;
    NoLocks(h, s, t);
    assert PcOk(h, s, t);
    SameExts(h, s, SplitLockDo(h, s, t), t);
    QuietKeeps(h, s, SplitLockDo(h, s, t), t);
  }

  // ------------------------------------------------------------------ free lists, slabs and fresh extents

  /** An extent changes hands, or is loosened or tightened, while the mutexes stay as they are. */
  ghost predicate Recast(h: Hash, s: State, s': State, t: int, x: int) {
    && x in s.exts && x in s'.exts && s'.exts == s.exts[x := s'.exts[x]]
    && s'.exts[x].first == s.exts[x].first && s'.exts[x].npages == s.exts[x].npages >= 1
    && s'.vslabs == s.vslabs && s'.words == s.words && s'.locks == s.locks && OnlyMoves(s, s', t)
    && !Mid(s.Pc(t)) && !Mid(s'.Pc(t)) && Hollow(s.Pc(t)) == {} && Hollow(s'.Pc(t)) == {}
    && Holds(h, s'.Pc(t)) == Holds(h, s.Pc(t))
    && (s'.exts[x].loose ==> s'.exts[x].mode.Held?)
  }

  lemma RecastPages(h: Hash, s: State, s': State, t: int, x: int)
    requires Recast(h, s, s', t, x) && Pages(s) && Pcs(h, s) && (s.exts[x].mode == Held(t) || s.exts[x].mode.Free?)
    requires forall p :: s'.exts[x].Has(p) ==> PageOk(s', x, p)
    ensures Pages(s')
  {
    hide PageOk;
    forall y, p | y in s'.exts && s'.exts[y].Has(p) ensures PageOk(s', y, p) {
      if y != x {
        assert PageOk(s, y, p);
        if s.exts[y].mode.Held? { PcHolds(h, s, s.exts[y].mode.t); }
        RecastPair(h, s, s', t, x, y);
        PageSame(s, s', y, p);
      }
    }
    forall p | p in s'.words && s'.words[p].ptr != 0 ensures exists y :: y in s'.exts && s'.exts[y].Has(p) {
      var y :| y in s.exts && s.exts[y].Has(p);
      assert s'.exts[y].Has(p);
    }
  }

  /** `x` belongs to the stepping thread or to nobody, so it is in no other thread's pair. */
  lemma RecastPair(h: Hash, s: State, s': State, t: int, x: int, y: int)
    requires Recast(h, s, s', t, x) && Pcs(h, s) && y in s.exts && (s.exts[x].mode == Held(t) || s.exts[x].mode.Free?)
    ensures s.exts[y].mode.Held? ==> PairSame(s, s', s.exts[y].mode.t)
  {
    if s.exts[y].mode.Held? { PcHolds(h, s, s.exts[y].mode.t); }
  }

  lemma RecastRest(h: Hash, s: State, s': State, t: int, x: int)
    requires Recast(h, s, s', t, x) && Names(s) && Apart(s) && Sized(s)
    ensures Names(s') && Apart(s') && Sized(s')
  {
  }

  lemma RecastKeeps(h: Hash, s: State, s': State, t: int, x: int)
    requires Inv(h, s) && Recast(h, s, s', t, x) && Spares(h, s, s', t) && PcOk(h, s', t)
    requires s.exts[x].mode == Held(t) || s.exts[x].mode.Free?
    requires forall p :: s'.exts[x].Has(p) ==> PageOk(s', x, p)
    ensures Inv(h, s')
  {
    hide Spares, PcOk, Names, Apart, Sized, Pages, PageOk, Pcs;
    NoLocks(h, s, t);
    RecastPages(h, s, s', t, x);
    RecastRest(h, s, s', t, x);
    LocksFollow(h, s, s', t);
    AllStand(h, s, s', t);
  }

  lemma PutKeeps(h: Hash, s: State, t: int, x: int, pool: int)
    requires Inv(h, s) && s.Pc(t).Idle? && s.HasMtx(pool, t) && s.Mine(x, t) && !s.exts[x].loose
    ensures Inv(h, Alter(s, x, s.exts[x].(mode := Free(pool))))
  {
    hide Names, Apart, Locked, Pcs;
    var s' := Alter(s, x, s.exts[x].(mode := Free(pool)));
    assert s'.Pc(t) == s.Pc(t);
    assert s.exts[x].npages != 0;
    forall p | s'.exts[x].Has(p) ensures PageOk(s', x, p) { assert PageOk(s, x, p); }
    RecastKeeps(h, s, s', t, x);
  }

  /** extent_activate_locked, from a fit search or for a neighbour that was chosen. */
  lemma TakeKeeps(h: Hash, s: State, s': State, t: int, x: int, pool: int)
    requires Inv(h, s) && (s.Pc(t).Idle? || s.Pc(t).Chosen?) && s.HasMtx(pool, t)
    requires x in s.exts && s.exts[x].mode == Free(pool)
    requires s' == s.(pcs := s'.pcs, exts := s.exts[x := s.exts[x].(mode := Held(t))]) && OnlyMoves(s, s', t) && s'.Pc(t).Idle?
    ensures Inv(h, s')
  {
    hide Names, Locked, Pcs;
    assert s.exts[x].npages != 0;
    forall p | s'.exts[x].Has(p) ensures PageOk(s', x, p) { assert PageOk(s, x, p); }
    RecastKeeps(h, s, s', t, x);
  }

  lemma LooseKeeps(h: Hash, s: State, t: int, x: int, loose: bool)
    requires Inv(h, s) && s.Mine(x, t) && (s.Pc(t).Idle? || s.Pc(t) == RegW(x))
    requires !loose ==> forall p :: s.exts[x].Has(p) ==> Tidy(s, x, p)
    ensures Inv(h, Alter(s, x, s.exts[x].(loose := loose)))
  {
    hide Names, Apart, Locked;
    var s' := Alter(s, x, s.exts[x].(loose := loose));
    assert s'.Pc(t) == s.Pc(t) && PcOk(h, s, t);
    assert s.exts[x].npages != 0;
    forall p | s'.exts[x].Has(p) ensures PageOk(s', x, p) {
      assert s.exts[x].Has(p) && PageOk(s, x, p);
      if !loose { assert Tidy(s, x, p) && Tidy(s', x, p); } else { assert Rough(s', x, p); }
    }
    RecastKeeps(h, s, s', t, x);
  }

  /** A leaf names nothing, an extent or a slab. */
  lemma WordsNamed(h: Hash, s: State, p: int)
    requires Inv(h, s) && s.At(p).ptr != 0
    ensures s.At(p).ptr in s.exts || s.At(p).ptr in s.vslabs
  {
    hide Names, Apart, Sized, Locked;
    var x :| x in s.exts && s.exts[x].Has(p);
    assert PageOk(s, x, p);
    if s.exts[x].mode.Held? {
      assert PcOk(h, s, s.exts[x].mode.t);
    }
  }

  lemma NewSlabKeeps(h: Hash, s: State, v: int)
    requires Inv(h, s) && s.Unused(v)
    ensures Inv(h, s.(vslabs := s.vslabs + {v}))
  {
    hide Apart, Locked, Sized, PageOk, PcOk;
    var s' := s.(vslabs := s.vslabs + {v});
    forall p | p in s'.words && s'.words[p].ptr in s'.vslabs ensures s'.words[p].slab {
      if s.words[p].ptr != 0 { WordsNamed(h, s, p); }
    }
    assert Apart(s') && Sized(s') && Locked(h, s') by { SameApart(h, s, s'); }
    forall x, p | x in s'.exts && s'.exts[x].Has(p) ensures PageOk(s', x, p) {
      assert PageOk(s, x, p);
      MoreSlabs(h, s, s', x, p);
    }
    forall t ensures PcOk(h, s', t) {
      assert PcOk(h, s, t);
      MoreSlabsPc(h, s, s', t);
    }
  }

  lemma MoreSlabs(h: Hash, s: State, s': State, x: int, p: int)
    requires x in s.exts && PageOk(s, x, p) && s.vslabs <= s'.vslabs && s'.exts == s.exts && s'.pcs == s.pcs && s'.words == s.words
    ensures PageOk(s', x, p)
  {
    hide MidMerge, MidSplit;
  }

  lemma MoreSlabsPc(h: Hash, s: State, s': State, t: int)
    requires PcOk(h, s, t) && s.vslabs <= s'.vslabs && s'.exts == s.exts && s'.pcs == s.pcs && s'.mtx == s.mtx
    ensures PcOk(h, s', t)
  {
  }

  lemma SameApart(h: Hash, s: State, s': State)
    requires Apart(s) && Sized(s) && Locked(h, s) && s'.exts == s.exts && s'.pcs == s.pcs && s'.locks == s.locks
    ensures Apart(s') && Sized(s') && Locked(h, s')
  {
    forall t ensures s'.Pc(t) == s.Pc(t) { }
  }

  lemma FreeSlabKeeps(h: Hash, s: State, v: int)
    requires Inv(h, s) && v in s.vslabs && (forall p :: p in s.words ==> s.words[p].ptr != v)
    requires forall u :: u in s.pcs && (s.pcs[u].SplitA? || s.pcs[u].SplitB? || s.pcs[u].SplitW?) ==> s.pcs[u].w.ptr != v
    ensures Inv(h, s.(vslabs := s.vslabs - {v}))
  {
    hide Apart, Locked, Sized;
    var s' := s.(vslabs := s.vslabs - {v});
    assert Apart(s') && Sized(s') && Locked(h, s') by { SameApart(h, s, s'); }
    assert Pages(s') by {
      forall x, p | x in s'.exts && s'.exts[x].Has(p) ensures PageOk(s', x, p) {
        assert PageOk(s, x, p) && s.At(p).ptr != v;
      }
    }
    forall t ensures PcOk(h, s', t) { assert PcOk(h, s, t) && s'.Pc(t) == s.Pc(t); }
  }

  /** A descriptor comes into use, for pages no extent had, or for none yet. */
  ghost predicate Added(s: State, s': State, t: int, x: int) {
    && s.Unused(x) && x in s'.exts && s'.exts == s.exts[x := s'.exts[x]] && s'.exts[x].mode == Held(t)
    && s'.vslabs == s.vslabs && s'.words == s.words && s'.locks == s.locks && s'.mtx == s.mtx && OnlyMoves(s, s', t)
    && s.Pc(t).Idle? && !Mid(s'.Pc(t))
    && (s'.exts[x].npages == 0 ==> x in Hollow(s'.Pc(t)))
    && (s'.exts[x].npages > 0 ==> s'.exts[x].loose)
    && (forall y, p :: y in s.exts && s'.exts[x].Has(p) ==> !s.exts[y].Has(p))
  }

  lemma AddedRest(s: State, s': State, t: int, x: int)
    requires Added(s, s', t, x) && Names(s) && Apart(s) && Sized(s) && (forall p :: p in s.words ==> s.words[p].ptr != x)
    ensures Names(s') && Apart(s') && Sized(s')
  {
  }

  lemma AddedPages(h: Hash, s: State, s': State, t: int, x: int)
    requires Added(s, s', t, x) && Pages(s) && Pcs(h, s)
    ensures Pages(s')
  {
    hide PageOk, PcOk;
    forall y, p | y in s'.exts && s'.exts[y].Has(p) ensures PageOk(s', y, p) { AddedPage(h, s, s', t, x, y, p); }
    forall p | p in s'.words && s'.words[p].ptr != 0 ensures exists y :: y in s'.exts && s'.exts[y].Has(p) {
      var y :| y in s.exts && s.exts[y].Has(p);
      assert s'.exts[y].Has(p);
    }
  }

  lemma AddedPage(h: Hash, s: State, s': State, t: int, x: int, y: int, p: int)
    requires Added(s, s', t, x) && Pages(s) && Pcs(h, s) && y in s'.exts && s'.exts[y].Has(p)
    ensures PageOk(s', y, p)
  {
    hide PageOk;
    if y == x { Unowned(s, p); }
    if y != x {
      if s.exts[y].mode.Held? { assert PcOk(h, s, s.exts[y].mode.t); }
      PageSame(s, s', y, p);
    } else {
      NewPage(s, s', t, x, p);
    }
  }

  lemma Unowned(s: State, p: int)
    requires Pages(s) && forall y :: y in s.exts ==> !s.exts[y].Has(p)
    ensures s.At(p).ptr == 0
  {
  }

  lemma NewPage(s: State, s': State, t: int, x: int, p: int)
    requires Added(s, s', t, x) && s'.exts[x].Has(p) && s.At(p).ptr == 0
    ensures PageOk(s', x, p)
  {
    assert Rough(s', x, p);
  }

  /** What a page may read depends only on the extent, its holder's place and the pair the holder is changing. */
  lemma PageSame(s: State, s': State, y: int, p: int)
    requires y in s.exts && y in s'.exts && s'.exts[y] == s.exts[y] && s'.At(p) == s.At(p) && s'.vslabs == s.vslabs
    requires s.exts[y].mode.Held? ==> PairSame(s, s', s.exts[y].mode.t)
    requires PageOk(s, y, p)
    ensures PageOk(s', y, p)
  {
  }

  /** A thread is not in the middle of anything, or stands where it stood with its pair unchanged. */
  predicate PairSame(s: State, s': State, t: int) {
    var pc := s.Pc(t);
    || (!Mid(pc) && !Mid(s'.Pc(t)))
    || (s'.Pc(t) == pc && match pc
        case MergeW(a, b, _, _) => a in s.exts && b in s.exts && a in s'.exts && b in s'.exts && s'.exts[a] == s.exts[a] && s'.exts[b] == s.exts[b]
        case SplitW(a, b, _, _, _) => a in s.exts && b in s.exts && a in s'.exts && b in s'.exts && s'.exts[a] == s.exts[a] && s'.exts[b] == s.exts[b]
        case _ => true)
  }

  lemma AddedKeeps(h: Hash, s: State, s': State, t: int, x: int)
    requires Inv(h, s) && Added(s, s', t, x) && PcOk(h, s', t) && Holds(h, s'.Pc(t)) == {}
    ensures Inv(h, s')
  {
    hide Names, Apart, Sized, Pages, PcOk, Hollow;
    forall p | p in s.words ensures s.words[p].ptr != x {
      if s.words[p].ptr != 0 { WordsNamed(h, s, p); }
    }
    AddedRest(s, s', t, x);
    AddedPages(h, s, s', t, x);
    NoLocks(h, s, t);
    LocksFollow(h, s, s', t);
    AllStand(h, s, s', t);
  }

  lemma FreshKeeps(h: Hash, s: State, t: int, x: int, first: int, n: nat)
    requires Inv(h, s) && s.Pc(t).Idle? && s.Unused(x) && n >= 1
    requires forall y, p :: y in s.exts && first <= p < first + n ==> !s.exts[y].Has(p)
    ensures Inv(h, Go(Alter(s, x, Extent(first, n, Held(t), true)), t, RegA(x)))
  {
    hide Names, Apart, Sized, Pages, Locked, Pcs;
    AddedKeeps(h, s, Go(Alter(s, x, Extent(first, n, Held(t), true)), t, RegA(x)), t, x);
  }

  lemma SplitGoKeeps(h: Hash, s: State, t: int, e: int, y: int, n: nat, w: Word)
    requires Inv(h, s) && s.Pc(t).Idle? && s.Mine(e, t) && !s.exts[e].loose && s.Unused(y) && 0 < n < s.exts[e].npages && WordFor(s, e, w)
    ensures Inv(h, Go(Alter(s, y, Extent(s.exts[e].first + n, 0, Held(t), false)), t, SplitA(e, y, n, w)))
  {
    hide Names, Apart, Sized, Pages, Locked, Pcs;
    AddedKeeps(h, s, Go(Alter(s, y, Extent(s.exts[e].first + n, 0, Held(t), false)), t, SplitA(e, y, n, w)), t, y);
  }

  /** A leaf of `x` is written; what the pages of `x` read afterwards is checked, all else is as it was. */
  lemma StoreKeeps(h: Hash, s: State, s': State, t: int, x: int, p: int, w: Word)
    requires Inv(h, s) && s.Mine(x, t) && s.exts[x].Has(p) && (w.ptr in s.vslabs ==> w.slab)
    requires s' == s.(words := s.words[p := w], pcs := s'.pcs) && OnlyMoves(s, s', t)
    requires Hollow(s'.Pc(t)) == Hollow(s.Pc(t)) && Holds(h, s'.Pc(t)) == Holds(h, s.Pc(t)) && PcOk(h, s', t)
    requires forall y, q :: s.Mine(y, t) && s.exts[y].Has(q) ==> PageOk(s', y, q)
    ensures Inv(h, s')
  {
    hide PcOk, Hollow, Holds;
    NoLocks(h, s, t);
    SparesStore(h, s, s', t);
    assert Pages(s') by { StorePages(s, s', t, x, p, w); }
    hide Pages;
    LocksFollow(h, s, s', t);
    AllStand(h, s, s', t);
  }

  lemma SparesStore(h: Hash, s: State, s': State, t: int)
    requires s'.exts == s.exts && s'.vslabs == s.vslabs && s'.mtx == s.mtx && OnlyMoves(s, s', t)
    ensures Spares(h, s, s', t)
  {
  }

  lemma StorePages(s: State, s': State, t: int, x: int, p: int, w: Word)
    requires Pages(s) && Apart(s) && s.Mine(x, t) && s.exts[x].Has(p)
    requires s' == s.(words := s.words[p := w], pcs := s'.pcs) && OnlyMoves(s, s', t)
    requires forall y, q :: s.Mine(y, t) && s.exts[y].Has(q) ==> PageOk(s', y, q)
    ensures Pages(s')
  {
    forall y, q | y in s'.exts && s'.exts[y].Has(q) ensures PageOk(s', y, q) {
      if !s.Mine(y, t) {
        assert PageOk(s, y, q) && q != p;
        assert s'.At(q) == s.At(q);
      }
    }
    forall q | q in s'.words && s'.words[q].ptr != 0 ensures exists y :: y in s'.exts && s'.exts[y].Has(q) {
      if q != p {
        var y :| y in s.exts && s.exts[y].Has(q);
        assert s'.exts[y].Has(q);
      } else {
        assert s'.exts[x].Has(q);
      }
    }
  }

  lemma WriteKeeps(h: Hash, s: State, t: int, x: int, p: int, w: Word)
    requires Inv(h, s) && CanWrite(s, t, x, p) && (w.ptr in s.vslabs ==> w.slab)
    requires w.ptr == 0 || w.ptr in s.vslabs || (w.ptr == x && (p == s.exts[x].first || p == s.exts[x].Last()))
    ensures Inv(h, Store(s, p, w))
  {
    hide Names, Sized, Locked;
    var s' := Store(s, p, w);
    assert s'.Pc(t) == s.Pc(t) && PcOk(h, s, t);
    forall y, q | s.Mine(y, t) && s.exts[y].Has(q) ensures PageOk(s', y, q) {
      assert PageOk(s, y, q);
      if y != x { assert q != p; }
    }
    StoreKeeps(h, s, s', t, x, p, w);
  }

  // ------------------------------------------------------------------ merging

  lemma MergePages(h: Hash, s: State, s': State, t: int, y: int, q: int)
    requires Inv(h, s) && s.Pc(t).MergeW? && s.Pc(t).k in {1, 2, 4, 5}
    requires s.Pc(t).a in s.exts && s.Pc(t).b in s.exts && s' == MergeDo(h, s, t) && s.Mine(y, t) && s.exts[y].Has(q)
    ensures PageOk(s', y, q)
  {
    hide Names, Sized, Locked, Pcs;
    var MergeW(a, b, mid, k) := s.Pc(t);
    assert PcOk(h, s, t) by { PcHolds(h, s, t); }
    assert PageOk(s, y, q);
    if y != a && y != b {
      assert !s.exts[a].Has(q) && !s.exts[b].Has(q);
      assert s'.At(q) == s.At(q);
    }
  }

  lemma PcHolds(h: Hash, s: State, t: int)
    requires Pcs(h, s)
    ensures PcOk(h, s, t)
  {
  }

  lemma MergeStoreKeeps(h: Hash, s: State, t: int)
    requires Inv(h, s) && s.Pc(t).MergeW? && s.Pc(t).k in {1, 2, 4, 5} && s.Pc(t).a in s.exts && s.Pc(t).b in s.exts
    ensures Inv(h, MergeDo(h, s, t))
  {
    hide Names, Apart, Sized, Pages, Locked, PageOk, Pcs;
    var s' := MergeDo(h, s, t);
    var MergeW(a, b, mid, k) := s.Pc(t);
    PcHolds(h, s, t);
    forall y, q | s.Mine(y, t) && s.exts[y].Has(q) ensures PageOk(s', y, q) { MergePages(h, s, s', t, y, q); }
    var p := if k == 1 || k == 5 then s.exts[a].Last() else if k == 2 then s.exts[b].first else s.exts[a].first;
    NamesZero(s, a);
    StoreKeeps(h, s, s', t, if k == 2 then b else a, p, if k <= 2 then NULL else Word(a, false));
  }

  lemma NamesZero(s: State, a: int)
    requires Names(s)
    ensures 0 !in s.vslabs && (a in s.exts ==> a !in s.vslabs)
  {
  }

  /** A thread that has the mutexes of a pair moves pages between them. */
  ghost predicate Shifted(h: Hash, s: State, s': State, t: int, a: int, b: int) {
    && a != b && s.Mine(a, t) && s.Mine(b, t) && s'.Mine(a, t) && s'.Mine(b, t)
    && s'.exts == s.exts[b := s'.exts[b]][a := s'.exts[a]]
    && s'.vslabs == s.vslabs && s'.words == s.words && s'.locks == s.locks && s'.mtx == s.mtx && OnlyMoves(s, s', t)
    && h(a) in Holds(h, s.Pc(t)) && h(b) in Holds(h, s.Pc(t)) && Holds(h, s'.Pc(t)) == Holds(h, s.Pc(t))
    && (forall p :: s.exts[a].Has(p) || s.exts[b].Has(p) <==> s'.exts[a].Has(p) || s'.exts[b].Has(p))
    && (forall p :: !(s'.exts[a].Has(p) && s'.exts[b].Has(p)))
  }

  lemma ShiftSpares(h: Hash, s: State, s': State, t: int, a: int, b: int)
    requires Shifted(h, s, s', t, a, b) && Locked(h, s)
    ensures Spares(h, s, s', t)
  {
    forall x, p, u | x in s.exts && s.exts[x].Has(p) && h(x) in Holds(h, s.Pc(u)) && u != t ensures x in s'.exts && s'.exts[x].Has(p) {
      if x == a || x == b { NotBoth(h, s, t, u, h(x)); }
    }
  }

  lemma ShiftApart(h: Hash, s: State, s': State, t: int, a: int, b: int)
    requires Shifted(h, s, s', t, a, b) && Apart(s)
    ensures Apart(s')
  {
    forall x, y, p | x in s'.exts && y in s'.exts && s'.exts[x].Has(p) && s'.exts[y].Has(p) ensures x == y {
      var x0 := if x != a && x != b then x else if s.exts[a].Has(p) then a else b;
      var y0 := if y != a && y != b then y else if s.exts[a].Has(p) then a else b;
      assert s.exts[x0].Has(p) && s.exts[y0].Has(p);
    }
  }

  lemma ShiftPages(h: Hash, s: State, s': State, t: int, a: int, b: int)
    requires Shifted(h, s, s', t, a, b) && Pages(s) && Pcs(h, s)
    requires forall y, q :: s'.Mine(y, t) && s'.exts[y].Has(q) ==> PageOk(s', y, q)
    ensures Pages(s')
  {
    hide PageOk, PcOk;
    forall y, q | y in s'.exts && s'.exts[y].Has(q) ensures PageOk(s', y, q) {
      if !s'.Mine(y, t) {
        assert PageOk(s, y, q);
        ShiftPair(h, s, s', t, a, b, y);
        PageSame(s, s', y, q);
      }
    }
    forall p | p in s'.words && s'.words[p].ptr != 0 ensures exists y :: y in s'.exts && s'.exts[y].Has(p) {
      var y :| y in s.exts && s.exts[y].Has(p);
      var z := if y != a && y != b then y else if s'.exts[a].Has(p) then a else b;
      assert s'.exts[z].Has(p);
    }
  }

  lemma ShiftPair(h: Hash, s: State, s': State, t: int, a: int, b: int, y: int)
    requires Shifted(h, s, s', t, a, b) && Pcs(h, s) && y in s.exts && !s.Mine(y, t)
    ensures s.exts[y].mode.Held? ==> PairSame(s, s', s.exts[y].mode.t)
  {
    if s.exts[y].mode.Held? {
      assert PcOk(h, s, s.exts[y].mode.t);
    }
  }

  lemma NamesSame(s: State, s': State)
    requires Names(s) && s'.exts.Keys == s.exts.Keys && s'.vslabs == s.vslabs && s'.words == s.words
    ensures Names(s')
  {
  }

  lemma ShiftKeeps(h: Hash, s: State, s': State, t: int, a: int, b: int)
    requires Inv(h, s) && Shifted(h, s, s', t, a, b) && PcOk(h, s', t) && Sized(s')
    requires s'.exts[a].loose ==> s'.exts[a].mode.Held?
    requires forall y, q :: s'.Mine(y, t) && s'.exts[y].Has(q) ==> PageOk(s', y, q)
    ensures Inv(h, s')
  {
    hide PageOk, PcOk, Sized, Apart, Pages, Names;
    NoLocks(h, s, t);
    ShiftSpares(h, s, s', t, a, b);
    ShiftApart(h, s, s', t, a, b);
    ShiftPages(h, s, s', t, a, b);
    NamesSame(s, s');
    LocksFollow(h, s, s', t);
    AllStand(h, s, s', t);
  }

  lemma MergeSizePage(h: Hash, s: State, s': State, t: int, y: int, q: int)
    requires Inv(h, s) && s.Pc(t).MergeW? && s.Pc(t).k == 3
    requires s.Pc(t).a in s.exts && s.Pc(t).b in s.exts && s' == MergeDo(h, s, t) && s'.Mine(y, t) && s'.exts[y].Has(q)
    ensures PageOk(s', y, q)
  {
    hide Names, Sized, Locked, Pcs, Apart;
    var MergeW(a, b, mid, k) := s.Pc(t);
    PcHolds(h, s, t);
    var x := if y != a then y else if s.exts[a].Has(q) then a else b;
    assert s.exts[x].Has(q) && PageOk(s, x, q);
  }

  lemma MergeSizeKeeps(h: Hash, s: State, t: int)
    requires Inv(h, s) && s.Pc(t).MergeW? && s.Pc(t).k == 3 && s.Pc(t).a in s.exts && s.Pc(t).b in s.exts
    ensures Inv(h, MergeDo(h, s, t))
  {
    hide Names, Apart, Pages, Locked, PageOk, Pcs;
    var s' := MergeDo(h, s, t);
    var MergeW(a, b, mid, k) := s.Pc(t);
    PcHolds(h, s, t);
    forall y, q | s'.Mine(y, t) && s'.exts[y].Has(q) ensures PageOk(s', y, q) { MergeSizePage(h, s, s', t, y, q); }
    ShiftKeeps(h, s, s', t, a, b);
  }

  lemma MergeUnlockKeeps(h: Hash, s: State, t: int)
    requires Inv(h, s) && s.Pc(t).MergeW? && 6 <= s.Pc(t).k <= 7 && s.Pc(t).a in s.exts && s.Pc(t).b in s.exts
    ensures Inv(h, MergeDo(h, s, t))
  {
    hide Names, Apart, Sized, Pages, Locked, PageOk, Pcs, Spares;
    PcHolds(h, s, t);
    NoLocks(h, s, t);
    SameExts(h, s, MergeDo(h, s, t), t);
    QuietKeeps(h, s, MergeDo(h, s, t), t);
  }

  /** extent_merge_impl frees the descriptor that was merged away; nothing reads it any more. */
  lemma MergeFreeKeeps(h: Hash, s: State, t: int)
    requires Inv(h, s) && s.Pc(t).MergeW? && s.Pc(t).k == 8 && s.Pc(t).a in s.exts && s.Pc(t).b in s.exts
    ensures Inv(h, MergeDo(h, s, t))
  {
    hide Names, Apart, Sized, Pages, Locked, PageOk, Pcs;
    var s' := MergeDo(h, s, t);
    PcHolds(h, s, t);
    NoLocks(h, s, t);
    FreedPages(h, s, s', t);
    FreedRest(s, s', t);
    LocksFollow(h, s, s', t);
    AllStand(h, s, s', t);
  }

  lemma FreedRest(s: State, s': State, t: int)
    requires Names(s) && Apart(s) && Sized(s) && s.Pc(t).MergeW? && s.Pc(t).k == 8 && OnlyMoves(s, s', t)
    requires s' == s.(exts := s.exts - {s.Pc(t).b}, pcs := s'.pcs)
    ensures Names(s') && Apart(s') && Sized(s')
  {
  }

  lemma FreedPages(h: Hash, s: State, s': State, t: int)
    requires Pages(s) && Pcs(h, s) && s.Pc(t).MergeW? && s.Pc(t).k == 8 && OnlyMoves(s, s', t) && s'.Pc(t).Idle?
    requires s' == s.(exts := s.exts - {s.Pc(t).b}, pcs := s'.pcs)
    ensures Pages(s')
  {
    hide PageOk;
    var b := s.Pc(t).b;
    PcHolds(h, s, t);
    forall y, q | y in s'.exts && s'.exts[y].Has(q) ensures PageOk(s', y, q) {
      assert PageOk(s, y, q);
      if s.exts[y].mode.Held? { PcHolds(h, s, s.exts[y].mode.t); }
      PageSame(s, s', y, q);
    }
    forall p | p in s'.words && s'.words[p].ptr != 0 ensures exists y :: y in s'.exts && s'.exts[y].Has(p) {
      var y :| y in s.exts && s.exts[y].Has(p);
      assert y != b && s'.exts[y].Has(p);
    }
  }

  // ------------------------------------------------------------------ splitting

  lemma SplitPages(h: Hash, s: State, s': State, t: int, x: int, q: int)
    requires Inv(h, s) && s.Pc(t).SplitW? && 2 <= s.Pc(t).k <= 5
    requires s.Pc(t).e in s.exts && s.Pc(t).y in s.exts && s' == SplitDo(h, s, t) && s.Mine(x, t) && s.exts[x].Has(q)
    ensures PageOk(s', x, q)
  {
    hide Names, Sized, Locked, Pcs, PageOk, SplitDo, PcOk;
    PcHolds(h, s, t);
    assert PageOk(s, x, q);
    if x != s.Pc(t).e && x != s.Pc(t).y {
      SplitAside(h, s, s', t, x, q);
    } else if s.Pc(t).k <= 4 {
      SplitMidway(s, s', h, t, x, q);
    } else {
      SplitLast(s, s', h, t, x, q);
    }
  }

  lemma SplitAside(h: Hash, s: State, s': State, t: int, x: int, q: int)
    requires PcOk(h, s, t) && s.Pc(t).SplitW? && 2 <= s.Pc(t).k <= 5
    requires s.Pc(t).e in s.exts && s.Pc(t).y in s.exts && s' == SplitDo(h, s, t) && s.Mine(x, t) && PageOk(s, x, q)
    requires !s.exts[s.Pc(t).e].Has(q) && !s.exts[s.Pc(t).y].Has(q)
    requires x != s.Pc(t).e && x != s.Pc(t).y
    ensures PageOk(s', x, q)
  {
    hide PageOk;
    assert s'.At(q) == s.At(q);
    AsideSame(s, s', t, x, q);
  }

  /** What a page of neither extent of the pair reads does not depend on how far the split has come. */
  lemma AsideSame(s: State, s': State, t: int, x: int, q: int)
    requires s.Mine(x, t) && PageOk(s, x, q) && s'.exts == s.exts && s'.vslabs == s.vslabs && s'.At(q) == s.At(q)
    requires s.Pc(t).SplitW? && s'.Pc(t).SplitW? && s'.Pc(t).e == s.Pc(t).e && s'.Pc(t).y == s.Pc(t).y
    requires x != s.Pc(t).e && x != s.Pc(t).y
    ensures PageOk(s', x, q)
  {
    hide MidMerge, MidSplit;
  }

  lemma SplitMidway(s: State, s': State, h: Hash, t: int, x: int, q: int)
    requires x in s.exts && PageOk(s, x, q) && PcOk(h, s, t) && s.Pc(t).SplitW? && 2 <= s.Pc(t).k <= 4
    requires s.Pc(t).e in s.exts && s.Pc(t).y in s.exts && s' == SplitDo(h, s, t)
    requires (x == s.Pc(t).e || x == s.Pc(t).y) && s.exts[x].Has(q)
    ensures PageOk(s', x, q)
  {
    hide MidSplit, MidMerge, Rough, Tidy, SplitDo, PcOk;
    var SplitW(e, y, n, w, k) := s.Pc(t);
    SplitSizes(h, s, t);
    MidSplitStep(s.exts[e].first, s.exts[y].first, s.exts[y].Last(), e, y, w.ptr, k, q);
    SplitWrites(h, s, t, q);
  }

  lemma SplitSizes(h: Hash, s: State, t: int)
    requires PcOk(h, s, t) && s.Pc(t).SplitW? && 2 <= s.Pc(t).k
    ensures s.Mine(s.Pc(t).e, t) && s.Mine(s.Pc(t).y, t) && s.exts[s.Pc(t).e].first < s.exts[s.Pc(t).y].first <= s.exts[s.Pc(t).y].Last()
  {
  }

  /** The leaf that a step of the split writes. */
  lemma SplitWrites(h: Hash, s: State, t: int, q: int)
    requires PcOk(h, s, t) && s.Pc(t).SplitW? && 2 <= s.Pc(t).k <= 4 && s.Pc(t).e in s.exts && s.Pc(t).y in s.exts
    ensures var SplitW(e, y, n, w, k), s' := s.Pc(t), SplitDo(h, s, t);
      && s'.exts == s.exts && s'.vslabs == s.vslabs && s'.Pc(t) == SplitW(e, y, n, w, k + 1)
      && s'.At(q).ptr == if q == SplitAt(s.exts[e].first, s.exts[y].first, k) then (if k <= 3 then w.ptr else y) else s.At(q).ptr
  {
  }

  function SplitAt(first: int, mid: int, k: nat): int {
    if k == 2 then first else if k == 3 then mid - 1 else mid
  }

  lemma MidSplitStep(first: int, mid: int, last: int, e: int, y: int, w: int, k: nat, q: int)
    requires first < mid <= last && 2 <= k <= 4
    ensures MidSplit(first, mid, last, e, y, w, k + 1, q) ==
      if q == SplitAt(first, mid, k) then (if k <= 3 then w else y) else MidSplit(first, mid, last, e, y, w, k, q)
  {
  }

  lemma SplitLast(s: State, s': State, h: Hash, t: int, x: int, q: int)
    requires x in s.exts && PageOk(s, x, q) && PcOk(h, s, t) && s.Pc(t).SplitW? && s.Pc(t).k == 5
    requires s.Pc(t).e in s.exts && s.Pc(t).y in s.exts && s' == SplitDo(h, s, t)
    requires (x == s.Pc(t).e || x == s.Pc(t).y) && s.exts[x].Has(q)
    ensures PageOk(s', x, q)
  {
  }

  lemma SplitStoreKeeps(h: Hash, s: State, t: int)
    requires Inv(h, s) && s.Pc(t).SplitW? && 2 <= s.Pc(t).k <= 5 && s.Pc(t).e in s.exts && s.Pc(t).y in s.exts
    ensures Inv(h, SplitDo(h, s, t))
  {
    hide Names, Apart, Sized, Pages, Locked, PageOk, Pcs;
    var s' := SplitDo(h, s, t);
    var SplitW(e, y, n, w, k) := s.Pc(t);
    PcHolds(h, s, t);
    forall x, q | s.Mine(x, t) && s.exts[x].Has(q) ensures PageOk(s', x, q) { SplitPages(h, s, s', t, x, q); }
    var x := if k <= 3 then e else y;
    var p := if k == 2 || k == 4 then s.exts[x].first else s.exts[x].Last();
    NamesZero(s, e);
    NamesZero(s, y);
    StoreKeeps(h, s, s', t, x, p, if k <= 3 then w else Word(y, false));
  }

  lemma SplitSizePage(h: Hash, s: State, s': State, t: int, x: int, q: int)
    requires Inv(h, s) && s.Pc(t).SplitW? && s.Pc(t).k == 1 && s.Pc(t).e in s.exts && s.Pc(t).y in s.exts
    requires s.Pc(t).n <= s.exts[s.Pc(t).e].npages && s' == SplitDo(h, s, t) && s'.Mine(x, t) && s'.exts[x].Has(q)
    ensures PageOk(s', x, q)
  {
    hide Names, Sized, Locked, Pcs, Apart;
    var SplitW(e, y, n, w, k) := s.Pc(t);
    PcHolds(h, s, t);
    var z := if x == y then e else x;
    assert s.exts[z].Has(q) && PageOk(s, z, q);
  }

  lemma SplitSizeKeeps(h: Hash, s: State, t: int)
    requires Inv(h, s) && s.Pc(t).SplitW? && s.Pc(t).k == 1 && s.Pc(t).e in s.exts && s.Pc(t).y in s.exts
    requires s.Pc(t).n <= s.exts[s.Pc(t).e].npages
    ensures Inv(h, SplitDo(h, s, t))
  {
    hide Names, Apart, Pages, Locked, PageOk, Pcs;
    var s' := SplitDo(h, s, t);
    var SplitW(e, y, n, w, k) := s.Pc(t);
    PcHolds(h, s, t);
    forall x, q | s'.Mine(x, t) && s'.exts[x].Has(q) ensures PageOk(s', x, q) { SplitSizePage(h, s, s', t, x, q); }
    ShiftKeeps(h, s, s', t, e, y);
  }

  lemma SplitUnlockKeeps(h: Hash, s: State, t: int)
    requires Inv(h, s) && s.Pc(t).SplitW? && 6 <= s.Pc(t).k <= 7 && s.Pc(t).e in s.exts && s.Pc(t).y in s.exts
    ensures Inv(h, SplitDo(h, s, t))
  {
    hide Names, Apart, Sized, Pages, Locked, PageOk, Pcs, Spares;
    PcHolds(h, s, t);
    NoLocks(h, s, t);
    SameExts(h, s, SplitDo(h, s, t), t);
    QuietKeeps(h, s, SplitDo(h, s, t), t);
  }

  // ------------------------------------------------------------------ every run

  lemma MergeKeeps(h: Hash, s: State, t: int, st: Step)
    requires Inv(h, s) && Enabled(h, s, t, st) && (st.MergeGo? || st.MergeLock? || st.MergeStep?)
    ensures Inv(h, Do(h, s, t, st))
  {
    hide Names, Apart, Pages, Locked, PageOk, Pcs, MergeDo, MergeLockDo;
    PcHolds(h, s, t);
    match st
    case MergeGo(a, b) =>
      assert s.exts[a].npages != 0 && s.exts[b].npages != 0;
      MergeGoKeeps(h, s, t, a, b);
    case MergeLock => MergeLockKeeps(h, s, t);
    case MergeStep =>
      if s.Pc(t).k in {1, 2, 4, 5} { MergeStoreKeeps(h, s, t); }
      else if s.Pc(t).k == 3 { MergeSizeKeeps(h, s, t); }
      else if s.Pc(t).k <= 7 { MergeUnlockKeeps(h, s, t); }
      else { MergeFreeKeeps(h, s, t); }
  }

  lemma SplitKeeps(h: Hash, s: State, t: int, st: Step)
    requires Inv(h, s) && Enabled(h, s, t, st) && (st.SplitGo? || st.SplitLock? || st.SplitStep?)
    ensures Inv(h, Do(h, s, t, st))
  {
    hide Names, Apart, Pages, Locked, PageOk, Pcs, Sized, SplitDo, SplitLockDo;
    PcHolds(h, s, t);
    match st
    case SplitGo(e, y, n, w) => SplitGoKeeps(h, s, t, e, y, n, w);
    case SplitLock => SplitLockKeeps(h, s, t);
    case SplitStep =>
      if s.Pc(t).k == 1 { SplitSizeKeeps(h, s, t); }
      else if s.Pc(t).k <= 5 { SplitStoreKeeps(h, s, t); }
      else { SplitUnlockKeeps(h, s, t); }
  }

  lemma OwnKeeps(h: Hash, s: State, t: int, st: Step)
    requires Inv(h, s) && Enabled(h, s, t, st)
    requires st.Claim? || st.Put? || st.Take? || st.Fresh? || st.Loosen? || st.Tighten?
    ensures Inv(h, Do(h, s, t, st))
  {
    hide Names, Apart, Pages, Locked, PageOk, Pcs, Sized;
    PcHolds(h, s, t);
    var s' := Do(h, s, t, st);
    match st
    case Claim => TakeKeeps(h, s, s', t, s.Pc(t).p, s.Pc(t).pool);
    case Put(e, pool) => PutKeeps(h, s, t, e, pool);
    case Take(e, pool) => TakeKeeps(h, s, s', t, e, pool);
    case Fresh(x, first, n) => FreshKeeps(h, s, t, x, first, n);
    case Loosen(e) => LooseKeeps(h, s, t, e, true);
    case Tighten(e) => LooseKeeps(h, s, t, e, false);
  }

  lemma WritesKeep(h: Hash, s: State, t: int, st: Step)
    requires Inv(h, s) && Enabled(h, s, t, st) && (st.WriteSlab? || st.WriteNull? || st.WriteEnd?)
    ensures Inv(h, Do(h, s, t, st))
  {
    hide Apart, Pages, Locked, PageOk, Pcs, Sized;
    match st
    case WriteSlab(e, p, v) => WriteKeeps(h, s, t, e, p, Word(v, true));
    case WriteNull(e, p) => WriteKeeps(h, s, t, e, p, NULL);
    case WriteEnd(e, p, slab) => WriteKeeps(h, s, t, e, p, Word(e, slab));
  }

  /** Every step of every thread keeps the invariant. */
  lemma StepKeeps(h: Hash, s: State, t: int, st: Step)
    requires Inv(h, s) && Enabled(h, s, t, st)
    ensures Inv(h, Do(h, s, t, st))
  {
    hide Inv, PcOk;
    match st
    case AskMtx(pool) => AskMtxKeeps(h, s, t, pool);
    case TakeMtx => TakeMtxKeeps(h, s, t);
    case DropMtx(pool) => DropMtxKeeps(h, s, t, pool);
    case Search(_, _, _) => LoadKeeps(h, s, t, st);
    case LoadPtr => LoadKeeps(h, s, t, st);
    case LoadBit => LoadBitKeeps(h, s, t);
    case LockOne => LockOneKeeps(h, s, t);
    case Reload => ReloadKeeps(h, s, t);
    case Retry => ReleaseKeeps(h, s, t, st);
    case Decide => ReleaseKeeps(h, s, t, st);
    case RegUnlock => ReleaseKeeps(h, s, t, st);
    case RegLock => RegLockKeeps(h, s, t);
    case NewSlab(v) => NewSlabKeeps(h, s, v);
    case FreeSlab(v) => FreeSlabKeeps(h, s, v);
    case MergeGo(_, _) => MergeKeeps(h, s, t, st);
    case MergeLock => MergeKeeps(h, s, t, st);
    case MergeStep => MergeKeeps(h, s, t, st);
    case SplitGo(_, _, _, _) => SplitKeeps(h, s, t, st);
    case SplitLock => SplitKeeps(h, s, t, st);
    case SplitStep => SplitKeeps(h, s, t, st);
    case WriteSlab(_, _, _) => WritesKeep(h, s, t, st);
    case WriteNull(_, _) => WritesKeep(h, s, t, st);
    case WriteEnd(_, _, _) => WritesKeep(h, s, t, st);
    case _ => OwnKeeps(h, s, t, st);
  }

  const Boot := State(map[], map[], {}, map[], map[], map[])

  datatype Move = Move(t: int, st: Step)

  ghost predicate Run(h: Hash, s: State, moves: seq<Move>)
    decreases |moves|
  {
    moves == [] || (Enabled(h, s, moves[0].t, moves[0].st) && Run(h, Do(h, s, moves[0].t, moves[0].st), moves[1..]))
  }

  function After(h: Hash, s: State, moves: seq<Move>): State
    decreases |moves|
  {
    if moves == [] then s else After(h, Do(h, s, moves[0].t, moves[0].st), moves[1..])
  }

  lemma {:induction false} RunKeeps(h: Hash, s: State, moves: seq<Move>)
    requires Inv(h, s) && Run(h, s, moves)
    ensures Inv(h, After(h, s, moves))
    decreases |moves|
  {
    if moves != [] {
      StepKeeps(h, s, moves[0].t, moves[0].st);
      RunKeeps(h, Do(h, s, moves[0].t, moves[0].st), moves[1..]);
    }
  }

  lemma BootOk(h: Hash)
    ensures Inv(h, Boot)
  {
    forall t ensures Boot.Pc(t) == Idle { }
    assert Names(Boot) && Apart(Boot) && Sized(Boot) && Pages(Boot) && Locked(h, Boot) && Pcs(h, Boot);
  }

  /**
    Safety of extent_lock_from_addr over every run: while a thread has what it
    found, that is an extent in use that owns the page, and the thread has its
    mutex, provided an extent bore the address when the page was read again; a
    neighbour chosen for merging is free, owns the page, and is behind the
    thread's own free-list mutex.
   */
  lemma LookupSafe(h: Hash, moves: seq<Move>, t: int)
    requires Run(h, Boot, moves)
    ensures var s := After(h, Boot, moves); var pc := s.Pc(t);
      && (pc.Got? ==> h(pc.p) in s.locks && s.locks[h(pc.p)] == t)
      && (pc.Got? && pc.named ==> pc.p in s.exts && s.exts[pc.p].Has(pc.addr))
      && (pc.Chosen? ==> s.HasMtx(pc.pool, t) && pc.p in s.exts && s.exts[pc.p].mode == Free(pc.pool) && s.exts[pc.p].Has(pc.addr))
  {
    BootOk(h);
    RunKeeps(h, Boot, moves);
    var s := After(h, Boot, moves);
    PcHolds(h, s, t);
    NoLocks(h, s, t);
  }

  /** Reading the page again at `s` yields an extent unless the page reads a slab descriptor, which only a loose extent's can. */
  predicate Exact(h: Hash, s: State, t: int)
    requires s.Pc(t).Again?
  {
    var Again(addr, only, pool, p) := s.Pc(t);
    var r := Do(h, s, t, Reload).Pc(t);
    s.At(addr).ptr != p ||
      (r.Got? && (r.named <==> p !in s.vslabs) && (!s.At(addr).slab ==> r.named)
       && (r.named || exists x :: x in s.exts && s.exts[x].Has(addr) && s.exts[x].loose))
  }

  /**
    Reading the page again, with the mutex, returns an extent exactly when the
    page does not read a slab descriptor at that moment; a clear slab bit, or a
    page of an extent that is no slab, is enough.
   */
  lemma LookupExact(h: Hash, moves: seq<Move>, t: int)
    requires Run(h, Boot, moves) && After(h, Boot, moves).Pc(t).Again?
    ensures Exact(h, After(h, Boot, moves), t)
  {
    BootOk(h);
    RunKeeps(h, Boot, moves);
    hide Inv, Run, After;
    if After(h, Boot, moves).At(After(h, Boot, moves).Pc(t).addr).ptr == After(h, Boot, moves).Pc(t).p {
      RereadExact(h, After(h, Boot, moves), t);
    }
  }

  lemma RereadExact(h: Hash, s: State, t: int)
    requires Inv(h, s) && s.Pc(t).Again? && s.At(s.Pc(t).addr).ptr == s.Pc(t).p
    ensures s.Pc(t).p in s.exts <==> s.Pc(t).p !in s.vslabs
    ensures !s.At(s.Pc(t).addr).slab ==> s.Pc(t).p in s.exts
    ensures s.Pc(t).p in s.exts || exists x :: x in s.exts && s.exts[x].Has(s.Pc(t).addr) && s.exts[x].loose
  {
    hide Apart, Sized, Locked;
    var addr, p := s.Pc(t).addr, s.Pc(t).p;
    PcHolds(h, s, t);
    WordsNamed(h, s, addr);
    var x :| x in s.exts && s.exts[x].Has(addr);
    assert PageOk(s, x, addr);
    if s.exts[x].mode.Held? { PcHolds(h, s, s.exts[x].mode.t); }
  }

  // ------------------------------------------------------------------ what a lookup has seen

  predicate InLookup(pc: Pc) {
    pc.Load? || pc.Bit? || Past(pc)
  }

  /** Past the slab bit. */
  predicate Past(pc: Pc) {
    pc.Want? || pc.Again? || pc.Miss? || pc.Got? || pc.Chosen?
  }

  /** Where a thread stands in its last search, as number of the move that began it, or -1. */
  function LastSearch(moves: seq<Move>, t: int): (i: int)
    ensures -1 <= i < |moves|
    ensures i >= 0 ==> moves[i].t == t && moves[i].st.Search?
    ensures forall k :: i < k < |moves| ==> !(moves[k].t == t && moves[k].st.Search?)
  {
    var n := |moves| - 1;
    if moves == [] then -1 else if moves[n].t == t && moves[n].st.Search? then n else LastSearch(moves[..n], t)
  }

  /** The state after the first `j` moves. */
  function StateAt(h: Hash, moves: seq<Move>, j: nat): State
    requires j <= |moves|
  {
    After(h, Boot, moves[..j])
  }

  /** The search that a thread at `pc` is in. */
  predicate Asked(pc: Pc, st: Step)
    requires st.Search?
  {
    match pc
    case Load(addr, only, pool) => st == Search(addr, only, pool)
    case Bit(addr, only, pool, _) => st == Search(addr, only, pool)
    case Want(addr, only, pool, _) => st == Search(addr, only, pool)
    case Again(addr, only, pool, _) => st == Search(addr, only, pool)
    case Miss(addr, only, pool, _) => st == Search(addr, only, pool)
    case Got(addr, pool, _, _) => st.addr == addr && st.pool == pool
    case Chosen(addr, pool, _) => st.addr == addr && st.pool == pool
    case _ => false
  }

  /** After move `i` page `addr` has read `p`. */
  ghost predicate Loaded(h: Hash, moves: seq<Move>, i: int, addr: int, p: int) {
    exists n: nat :: i < n < |moves| && p != 0 && StateAt(h, moves, n).At(addr).ptr == p
  }

  /** After move `i` page `addr` has read `p`, and later on, if that matters, a clear slab bit. */
  ghost predicate Glimpsed(h: Hash, moves: seq<Move>, i: int, st: Step, p: int, j: nat)
    requires st.Search?
  {
    i < j < |moves| && Loaded(h, moves[..j], i, st.addr, p) && (st.only ==> !StateAt(h, moves, j).At(st.addr).slab)
  }

  ghost predicate Seen(h: Hash, moves: seq<Move>, i: int, st: Step, p: int)
    requires st.Search?
  {
    exists j: nat :: Glimpsed(h, moves, i, st, p, j)
  }

  /** Still later, with the mutex of `p` in the hands of `t`, the page has read `p` again, or has read something else. */
  ghost predicate SeenAgain(h: Hash, moves: seq<Move>, t: int, i: int, st: Step, p: int, same: bool)
    requires st.Search?
  {
    exists r: nat :: r < |moves| && Checked(h, moves, t, i, st, p, same, r)
  }

  ghost predicate Checked(h: Hash, moves: seq<Move>, t: int, i: int, st: Step, p: int, same: bool, r: nat)
    requires st.Search? && r < |moves|
  {
    var s := StateAt(h, moves, r);
    Seen(h, moves[..r], i, st, p) && (s.At(st.addr).ptr == p <==> same) && h(p) in s.locks && s.locks[h(p)] == t
  }

  /** Why a search ends with a step from `s` to `s'`: nothing there, a slab, an extent not to be had, or one that was. */
  predicate Ends(s: State, t: int, st: Step, m: Step, s': State)
    requires st.Search?
  {
    match m
    case LoadPtr => s.Pc(t).Load? && s.At(st.addr).ptr == 0
    case LoadBit => s.Pc(t).Bit? && st.only && s.At(st.addr).slab
    case Decide => s.Pc(t).Got? && !(s.Pc(t).p in s.exts && s.exts[s.Pc(t).p].mode == Free(st.pool))
    case Claim => s.Pc(t).Chosen? && s'.Mine(s.Pc(t).p, t)
    case _ => false
  }

  ghost predicate Ended(h: Hash, moves: seq<Move>, t: int, i: int, st: Step)
    requires st.Search?
  {
    exists j: nat :: i < j < |moves| && moves[j].t == t && Ends(StateAt(h, moves, j), t, st, moves[j].st, StateAt(h, moves, j + 1))
  }

  /** What the run so far has shown thread `t` since its last search. */
  ghost predicate Traced(h: Hash, moves: seq<Move>, t: int) {
    var i, pc := LastSearch(moves, t), After(h, Boot, moves).Pc(t);
    && (InLookup(pc) ==> i >= 0 && Asked(pc, moves[i].st))
    && (pc.Bit? ==> i >= 0 && Loaded(h, moves, i, moves[i].st.addr, pc.p))
    && (pc.Want? || pc.Again? ==> i >= 0 && Seen(h, moves, i, moves[i].st, pc.p))
    && (pc.Miss? ==> i >= 0 && SeenAgain(h, moves, t, i, moves[i].st, pc.p, false))
    && (pc.Got? || pc.Chosen? ==> i >= 0 && SeenAgain(h, moves, t, i, moves[i].st, pc.p, true))
    && (!InLookup(pc) && i >= 0 ==> Ended(h, moves, t, i, moves[i].st))
  }

  lemma {:induction false} RunLast(h: Hash, s: State, moves: seq<Move>)
    requires Run(h, s, moves) && moves != []
    ensures var n := |moves| - 1; var r := After(h, s, moves[..n]);
      Run(h, s, moves[..n]) && Enabled(h, r, moves[n].t, moves[n].st) && After(h, s, moves) == Do(h, r, moves[n].t, moves[n].st)
    decreases |moves|
  {
    hide Enabled, Do;
    var n := |moves| - 1;
    var s1 := Do(h, s, moves[0].t, moves[0].st);
    if n > 0 {
      RunLast(h, s1, moves[1..]);
      assert moves[1..][..n - 1] == moves[..n][1..] && moves[..n][0] == moves[0] && moves[1..][n - 1] == moves[n];
    } else {
      assert moves[..0] == [] && moves[1..] == [];
    }
  }

  lemma StateLonger(h: Hash, moves: seq<Move>, m: Move, j: nat)
    requires j <= |moves|
    ensures (moves + [m])[..j] == moves[..j] && StateAt(h, moves + [m], j) == StateAt(h, moves, j)
  {
    assert (moves + [m])[..j] == moves[..j];
  }

  lemma StateNow(h: Hash, moves: seq<Move>)
    ensures StateAt(h, moves, |moves|) == After(h, Boot, moves) && moves[..|moves|] == moves
  {
    assert moves[..|moves|] == moves;
  }

  lemma LoadedLonger(h: Hash, moves: seq<Move>, m: Move, i: int, addr: int, p: int)
    requires Loaded(h, moves, i, addr, p)
    ensures Loaded(h, moves + [m], i, addr, p)
  {
    hide After;
    var n: nat :| i < n < |moves| && p != 0 && StateAt(h, moves, n).At(addr).ptr == p;
    StateLonger(h, moves, m, n);
  }

  lemma SeenLonger(h: Hash, moves: seq<Move>, m: Move, i: int, st: Step, p: int)
    requires st.Search? && Seen(h, moves, i, st, p)
    ensures Seen(h, moves + [m], i, st, p)
  {
    hide StateAt, Loaded;
    var j: nat :| Glimpsed(h, moves, i, st, p, j);
    StateLonger(h, moves, m, j);
    assert Glimpsed(h, moves + [m], i, st, p, j);
  }

  lemma SeenAgainLonger(h: Hash, moves: seq<Move>, m: Move, t: int, i: int, st: Step, p: int, same: bool)
    requires st.Search? && SeenAgain(h, moves, t, i, st, p, same)
    ensures SeenAgain(h, moves + [m], t, i, st, p, same)
  {
    hide StateAt, Seen;
    var r: nat :| r < |moves| && Checked(h, moves, t, i, st, p, same, r);
    StateLonger(h, moves, m, r);
    assert Checked(h, moves + [m], t, i, st, p, same, r);
  }

  lemma EndedLonger(h: Hash, moves: seq<Move>, m: Move, t: int, i: int, st: Step)
    requires st.Search? && Ended(h, moves, t, i, st)
    ensures Ended(h, moves + [m], t, i, st)
  {
    hide StateAt, Ends;
    var j: nat :| i < j < |moves| && moves[j].t == t && Ends(StateAt(h, moves, j), t, st, moves[j].st, StateAt(h, moves, j + 1));
    StateLonger(h, moves, m, j);
    StateLonger(h, moves, m, j + 1);
    assert (moves + [m])[j] == moves[j];
  }

  lemma SearchStays(moves: seq<Move>, m: Move, t: int)
    requires !(m.t == t && m.st.Search?)
    ensures LastSearch(moves + [m], t) == LastSearch(moves, t)
  {
    assert (moves + [m])[..|moves|] == moves;
  }

  predicate LookupStep(st: Step) {
    st.Search? || st.LoadPtr? || st.LoadBit? || st.LockOne? || st.Reload? || st.Retry? || st.Decide? || st.Claim?
  }

  lemma OthersStay(h: Hash, s: State, m: Move, t: int)
    requires m.t != t
    ensures Do(h, s, m.t, m.st).Pc(t) == s.Pc(t)
  {
    hide Lo, Hi, Do, LookupStep;
    if m.st.MergeStep? || m.st.SplitStep? || m.st.MergeLock? || m.st.SplitLock? {
      MergeOthers(h, s, m.t, m.st, t);
    } else if LookupStep(m.st) {
      LookupMoves(h, s, m.t, m.st, t);
    } else {
      OtherMoves(h, s, m.t, m.st, t);
    }
  }

  lemma MergeOthers(h: Hash, s: State, t: int, st: Step, u: int)
    requires u != t && (st.MergeStep? || st.SplitStep? || st.MergeLock? || st.SplitLock?)
    ensures Do(h, s, t, st).Pc(u) == s.Pc(u)
  {
    hide Lo, Hi, MergeDo, SplitDo, MergeLockDo, SplitLockDo;
    MergeMoves(h, s, t, u);
    SplitMoves(h, s, t, u);
    MergeLocks(h, s, t, u);
    SplitLocks(h, s, t, u);
  }

  lemma LookupMoves(h: Hash, s: State, t: int, st: Step, u: int)
    requires u != t && LookupStep(st)
    ensures Do(h, s, t, st).Pc(u) == s.Pc(u)
  {
  }

  lemma OtherMoves(h: Hash, s: State, t: int, st: Step, u: int)
    requires u != t && !LookupStep(st) && !st.MergeStep? && !st.SplitStep? && !st.MergeLock? && !st.SplitLock?
    ensures Do(h, s, t, st).Pc(u) == s.Pc(u)
  {
  }

  /** A step that is none of a lookup's leaves the thread's lookup where it is, or is taken by a thread that is in none. */
  lemma StepMoves(h: Hash, s: State, t: int, st: Step)
    requires Enabled(h, s, t, st) && !LookupStep(st)
    ensures var pc, pc' := s.Pc(t), Do(h, s, t, st).Pc(t); pc' == pc || (!InLookup(pc) && !InLookup(pc'))
  {
    hide Lo, Hi, Enabled, Do, LookupStep, InLookup;
    if st.MergeStep? || st.SplitStep? || st.MergeLock? || st.SplitLock? {
      JoinMoves(h, s, t, st);
    } else if st.AskMtx? || st.TakeMtx? || st.DropMtx? || st.RegLock? || st.RegUnlock? || st.MergeGo? || st.SplitGo? || st.Fresh? {
      StartMoves(h, s, t, st);
    } else {
      WriteMoves(h, s, t, st);
    }
  }

  lemma StartMoves(h: Hash, s: State, t: int, st: Step)
    requires Enabled(h, s, t, st) && (st.AskMtx? || st.TakeMtx? || st.DropMtx? || st.RegLock? || st.RegUnlock? || st.MergeGo? || st.SplitGo? || st.Fresh?)
    ensures !InLookup(s.Pc(t)) && !InLookup(Do(h, s, t, st).Pc(t))
  {
    hide Lo, Hi, WordFor, CanWrite, MergeDo, SplitDo, MergeLockDo, SplitLockDo;
  }

  lemma WriteMoves(h: Hash, s: State, t: int, st: Step)
    requires !LookupStep(st) && !(st.MergeStep? || st.SplitStep? || st.MergeLock? || st.SplitLock?)
    requires !(st.AskMtx? || st.TakeMtx? || st.DropMtx? || st.RegLock? || st.RegUnlock? || st.MergeGo? || st.SplitGo? || st.Fresh?)
    ensures Do(h, s, t, st).Pc(t) == s.Pc(t)
  {
    hide Lo, Hi, MergeDo, SplitDo, MergeLockDo, SplitLockDo;
  }

  lemma JoinMoves(h: Hash, s: State, t: int, st: Step)
    requires Enabled(h, s, t, st) && (st.MergeStep? || st.SplitStep? || st.MergeLock? || st.SplitLock?)
    ensures var pc, pc' := s.Pc(t), Do(h, s, t, st).Pc(t); pc' == pc || (!InLookup(pc) && !InLookup(pc'))
  {
    hide Lo, Hi, MergeDo, SplitDo, MergeLockDo, SplitLockDo;
    MergeMoves(h, s, t, t);
    SplitMoves(h, s, t, t);
    MergeLocks(h, s, t, t);
    SplitLocks(h, s, t, t);
  }

  lemma MergeMoves(h: Hash, s: State, t: int, u: int)
    ensures s.Pc(t).MergeW? && s.Pc(t).a in s.exts && s.Pc(t).b in s.exts ==>
      if u == t then !InLookup(MergeDo(h, s, t).Pc(u)) else MergeDo(h, s, t).Pc(u) == s.Pc(u)
  {
  }

  lemma SplitMoves(h: Hash, s: State, t: int, u: int)
    ensures s.Pc(t).SplitW? && s.Pc(t).e in s.exts && s.Pc(t).y in s.exts && s.Pc(t).n <= s.exts[s.Pc(t).e].npages ==>
      if u == t then !InLookup(SplitDo(h, s, t).Pc(u)) else SplitDo(h, s, t).Pc(u) == s.Pc(u)
  {
  }

  lemma MergeLocks(h: Hash, s: State, t: int, u: int)
    ensures (s.Pc(t).MergeA? || s.Pc(t).MergeB?) && s.Pc(t).b in s.exts ==>
      if u == t then !InLookup(MergeLockDo(h, s, t).Pc(u)) else MergeLockDo(h, s, t).Pc(u) == s.Pc(u)
  {
    hide Lo, Hi;
  }

  lemma SplitLocks(h: Hash, s: State, t: int, u: int)
    ensures s.Pc(t).SplitA? || s.Pc(t).SplitB? ==>
      if u == t then !InLookup(SplitLockDo(h, s, t).Pc(u)) else SplitLockDo(h, s, t).Pc(u) == s.Pc(u)
  {
    hide Lo, Hi;
  }

  lemma TraceStill(h: Hash, moves: seq<Move>, m: Move, t: int)
    requires Traced(h, moves, t) && !(m.t == t && m.st.Search?)
    requires var pc, pc' := After(h, Boot, moves).Pc(t), After(h, Boot, moves + [m]).Pc(t); pc' == pc || (!InLookup(pc) && !InLookup(pc'))
    ensures Traced(h, moves + [m], t)
  {
    hide After, Loaded, Seen, SeenAgain, Ended, Asked;
    SearchStays(moves, m, t);
    var i, pc := LastSearch(moves, t), After(h, Boot, moves).Pc(t);
    if i >= 0 {
      var st := moves[i].st;
      assert (moves + [m])[i] == moves[i];
      if pc.Bit? { LoadedLonger(h, moves, m, i, st.addr, pc.p); }
      if pc.Want? || pc.Again? { SeenLonger(h, moves, m, i, st, pc.p); }
      if pc.Miss? || pc.Got? || pc.Chosen? { SeenAgainLonger(h, moves, m, t, i, st, pc.p, !pc.Miss?); }
      if !InLookup(pc) { EndedLonger(h, moves, m, t, i, st); }
    }
  }

  lemma TraceLoadPtr(h: Hash, moves: seq<Move>, t: int)
    requires Traced(h, moves, t) && After(h, Boot, moves).Pc(t).Load?
    requires After(h, Boot, moves + [Move(t, LoadPtr)]) == Do(h, After(h, Boot, moves), t, LoadPtr)
    ensures Traced(h, moves + [Move(t, LoadPtr)], t)
  {
    hide After, Seen, SeenAgain;
    var i, s, more := LastSearch(moves, t), After(h, Boot, moves), moves + [Move(t, LoadPtr)];
    SearchStays(moves, Move(t, LoadPtr), t);
    SoFar(h, moves, Move(t, LoadPtr));
    assert more[i] == moves[i] && more[|moves|] == Move(t, LoadPtr);
  }

  lemma SoFar(h: Hash, moves: seq<Move>, m: Move)
    ensures (moves + [m])[..|moves|] == moves && StateAt(h, moves + [m], |moves|) == After(h, Boot, moves)
    ensures StateAt(h, moves + [m], |moves| + 1) == After(h, Boot, moves + [m])
  {
    StateLonger(h, moves, m, |moves|);
    StateNow(h, moves);
    StateNow(h, moves + [m]);
  }

  lemma TraceLoadBit(h: Hash, moves: seq<Move>, t: int)
    requires Traced(h, moves, t) && After(h, Boot, moves).Pc(t).Bit?
    requires After(h, Boot, moves + [Move(t, LoadBit)]) == Do(h, After(h, Boot, moves), t, LoadBit)
    ensures Traced(h, moves + [Move(t, LoadBit)], t)
  {
    hide After, Loaded, SeenAgain;
    var i, s, more := LastSearch(moves, t), After(h, Boot, moves), moves + [Move(t, LoadBit)];
    SearchStays(moves, Move(t, LoadBit), t);
    SoFar(h, moves, Move(t, LoadBit));
    assert more[i] == moves[i] && more[|moves|] == Move(t, LoadBit);
    if !(moves[i].st.only && s.At(moves[i].st.addr).slab) {
      assert Glimpsed(h, more, i, moves[i].st, s.Pc(t).p, |moves|);
    }
  }

  lemma TraceLockOne(h: Hash, moves: seq<Move>, t: int)
    requires Traced(h, moves, t) && After(h, Boot, moves).Pc(t).Want?
    requires After(h, Boot, moves + [Move(t, LockOne)]) == Do(h, After(h, Boot, moves), t, LockOne)
    ensures Traced(h, moves + [Move(t, LockOne)], t)
  {
    hide After, Loaded, Seen, SeenAgain, Ended;
    var i, s := LastSearch(moves, t), After(h, Boot, moves);
    SearchStays(moves, Move(t, LockOne), t);
    assert (moves + [Move(t, LockOne)])[i] == moves[i];
    SeenLonger(h, moves, Move(t, LockOne), i, moves[i].st, s.Pc(t).p);
  }

  lemma TraceReload(h: Hash, moves: seq<Move>, t: int)
    requires Traced(h, moves, t) && After(h, Boot, moves).Pc(t).Again? && Locked(h, After(h, Boot, moves))
    requires After(h, Boot, moves + [Move(t, Reload)]) == Do(h, After(h, Boot, moves), t, Reload)
    ensures Traced(h, moves + [Move(t, Reload)], t)
  {
    hide After, Loaded, Seen, Ended, Locked;
    var i, s, more := LastSearch(moves, t), After(h, Boot, moves), moves + [Move(t, Reload)];
    SearchStays(moves, Move(t, Reload), t);
    SoFar(h, moves, Move(t, Reload));
    assert more[i] == moves[i];
    NoLocks(h, s, t);
    assert Checked(h, more, t, i, moves[i].st, s.Pc(t).p, s.At(moves[i].st.addr).ptr == s.Pc(t).p, |moves|);
  }

  lemma TraceRetry(h: Hash, moves: seq<Move>, t: int)
    requires Traced(h, moves, t) && After(h, Boot, moves).Pc(t).Miss?
    requires After(h, Boot, moves + [Move(t, Retry)]) == Do(h, After(h, Boot, moves), t, Retry)
    ensures Traced(h, moves + [Move(t, Retry)], t)
  {
    hide After, Loaded, Seen, SeenAgain, Ended;
    SearchStays(moves, Move(t, Retry), t);
    assert (moves + [Move(t, Retry)])[LastSearch(moves, t)] == moves[LastSearch(moves, t)];
  }

  lemma TraceDecide(h: Hash, moves: seq<Move>, t: int)
    requires Traced(h, moves, t) && After(h, Boot, moves).Pc(t).Got?
    requires After(h, Boot, moves + [Move(t, Decide)]) == Do(h, After(h, Boot, moves), t, Decide)
    ensures Traced(h, moves + [Move(t, Decide)], t)
  {
    hide After, Loaded, Seen, SeenAgain;
    var i, s, more := LastSearch(moves, t), After(h, Boot, moves), moves + [Move(t, Decide)];
    SearchStays(moves, Move(t, Decide), t);
    SoFar(h, moves, Move(t, Decide));
    assert more[i] == moves[i] && more[|moves|] == Move(t, Decide);
    SeenAgainLonger(h, moves, Move(t, Decide), t, i, moves[i].st, s.Pc(t).p, true);
  }

  lemma TraceClaim(h: Hash, moves: seq<Move>, t: int)
    requires Traced(h, moves, t) && After(h, Boot, moves).Pc(t).Chosen? && After(h, Boot, moves).Pc(t).p in After(h, Boot, moves).exts
    requires After(h, Boot, moves + [Move(t, Claim)]) == Do(h, After(h, Boot, moves), t, Claim)
    ensures Traced(h, moves + [Move(t, Claim)], t)
  {
    hide After, Loaded, Seen, SeenAgain;
    var i, s, more := LastSearch(moves, t), After(h, Boot, moves), moves + [Move(t, Claim)];
    SearchStays(moves, Move(t, Claim), t);
    SoFar(h, moves, Move(t, Claim));
    assert more[i] == moves[i] && more[|moves|] == Move(t, Claim);
  }

  /** One step of the lookup itself. */
  lemma TraceLookup(h: Hash, moves: seq<Move>, t: int, st: Step)
    requires Traced(h, moves, t) && LookupStep(st) && !st.Search?
    requires Inv(h, After(h, Boot, moves)) && Enabled(h, After(h, Boot, moves), t, st)
    requires After(h, Boot, moves + [Move(t, st)]) == Do(h, After(h, Boot, moves), t, st)
    ensures Traced(h, moves + [Move(t, st)], t)
  {
    hide After, Do, Traced, Names, Apart, Sized, Pages, Locked, Pcs;
    match st
    case LoadPtr => TraceLoadPtr(h, moves, t);
    case LoadBit => TraceLoadBit(h, moves, t);
    case LockOne => TraceLockOne(h, moves, t);
    case Reload => TraceReload(h, moves, t);
    case Retry => TraceRetry(h, moves, t);
    case Decide => TraceDecide(h, moves, t);
    case Claim =>
      PcHolds(h, After(h, Boot, moves), t);
      TraceClaim(h, moves, t);
  }

  lemma TraceStep(h: Hash, moves: seq<Move>, m: Move, t: int)
    requires Inv(h, After(h, Boot, moves)) && Traced(h, moves, t) && Enabled(h, After(h, Boot, moves), m.t, m.st)
    requires After(h, Boot, moves + [m]) == Do(h, After(h, Boot, moves), m.t, m.st)
    ensures Traced(h, moves + [m], t)
  {
    hide After, Do, Enabled, Traced, Names, Apart, Sized, Pages, Locked, Pcs;
    var s := After(h, Boot, moves);
    if m.t != t {
      OthersStay(h, s, m, t);
      TraceStill(h, moves, m, t);
    } else if m.st.Search? {
      TraceSearch(h, moves, t, m.st);
    } else if LookupStep(m.st) {
      TraceLookup(h, moves, t, m.st);
    } else {
      StepMoves(h, s, t, m.st);
      TraceStill(h, moves, m, t);
    }
  }

  lemma TraceSearch(h: Hash, moves: seq<Move>, t: int, st: Step)
    requires st.Search? && After(h, Boot, moves + [Move(t, st)]) == Do(h, After(h, Boot, moves), t, st)
    ensures Traced(h, moves + [Move(t, st)], t)
  {
    hide After;
    assert LastSearch(moves + [Move(t, st)], t) == |moves|;
  }

  lemma TracedAtBoot(h: Hash, t: int)
    ensures Traced(h, [], t)
  {
    assert After(h, Boot, []).Pc(t) == Idle;
  }

  /** Every run has shown each thread what its lookup takes for granted. */
  lemma {:induction false} LookupTraced(h: Hash, moves: seq<Move>, t: int)
    requires Run(h, Boot, moves)
    ensures Traced(h, moves, t)
  {
    hide Run, After, Do, Enabled, Traced, Inv;
    if moves == [] {
      TracedAtBoot(h, t);
    } else {
      var n := |moves| - 1;
      RunLast(h, Boot, moves);
      LookupTraced(h, moves[..n], t);
      BootOk(h);
      RunKeeps(h, Boot, moves[..n]);
      assert moves[..n] + [moves[n]] == moves;
      TraceStep(h, moves[..n], moves[n], t);
    }
  }

  lemma SeenClear(h: Hash, moves: seq<Move>, i: int, st: Step, p: int) returns (j: nat)
    requires st.Search? && st.only && Seen(h, moves, i, st, p)
    ensures i < j < |moves| && !StateAt(h, moves, j).At(st.addr).slab
  {
    hide StateAt, Loaded;
    j :| Glimpsed(h, moves, i, st, p, j);
  }

  lemma PastClear(h: Hash, moves: seq<Move>, t: int, i: nat)
    requires Traced(h, moves, t) && i < |moves| && i == LastSearch(moves, t) && moves[i].st.only
    ensures Past(After(h, Boot, moves).Pc(t)) ==> exists j: nat :: i < j < |moves| && !StateAt(h, moves, j).At(moves[i].st.addr).slab
  {
    var pc, st := After(h, Boot, moves).Pc(t), moves[i].st;
    hide After, StateAt, Loaded, Seen;
    if pc.Want? || pc.Again? {
      var j := SeenClear(h, moves, i, st, pc.p);
    } else if Past(pc) {
      var r: nat :| r < |moves| && Checked(h, moves, t, i, st, pc.p, !pc.Miss?, r);
      var j := SeenClear(h, moves[..r], i, st, pc.p);
      StatePrefix(h, moves, r, j);
    }
  }

  /**
    A lookup for inactive extents only does not go on from a page whose slab bit
    is set throughout: it neither waits for a mutex nor comes back with anything.
   */
  lemma SetBitStops(h: Hash, moves: seq<Move>, t: int, i: nat)
    requires Run(h, Boot, moves) && i < |moves| && i == LastSearch(moves, t) && moves[i].st.only
    requires forall j: nat :: i < j < |moves| ==> StateAt(h, moves, j).At(moves[i].st.addr).slab
    ensures !Past(After(h, Boot, moves).Pc(t))
  {
    hide Run, After, StateAt, Traced;
    LookupTraced(h, moves, t);
    PastClear(h, moves, t, i);
  }

  lemma StatePrefix(h: Hash, moves: seq<Move>, r: nat, j: nat)
    requires j <= r <= |moves|
    ensures StateAt(h, moves[..r], j) == StateAt(h, moves, j)
  {
    assert moves[..r][..j] == moves[..j];
  }

  // ------------------------------------------------------------------ what an operation does when nobody interferes

  /** The next step of an operation under way. */
  function NextStep(pc: Pc): Option<Step> {
    match pc
    case Load(_, _, _) => Some(LoadPtr)
    case Bit(_, _, _, _) => Some(LoadBit)
    case Want(_, _, _, _) => Some(LockOne)
    case Again(_, _, _, _) => Some(Reload)
    case Miss(_, _, _, _) => Some(Retry)
    case Got(_, _, _, _) => Some(Decide)
    case Chosen(_, _, _) => Some(Claim)
    case MergeA(_, _) => Some(MergeLock)
    case MergeB(_, _) => Some(MergeLock)
    case MergeW(_, _, _, _) => Some(MergeStep)
    case SplitA(_, _, _, _) => Some(SplitLock)
    case SplitB(_, _, _, _) => Some(SplitLock)
    case SplitW(_, _, _, _, _) => Some(SplitStep)
    case _ => None
  }

  /** Up to `n` steps of thread `t` alone, as far as it can go with what it is at. */
  ghost function Alone(h: Hash, s: State, t: int, n: nat): State
    decreases n
  {
    var st := NextStep(s.Pc(t));
    if n == 0 || st == None || !Enabled(h, s, t, st.value) then s else Alone(h, Do(h, s, t, st.value), t, n - 1)
  }

  lemma Onward(h: Hash, s: State, t: int, n: nat, st: Step, s': State)
    requires n > 0 && NextStep(s.Pc(t)) == Some(st) && Enabled(h, s, t, st) && Do(h, s, t, st) == s'
    ensures Alone(h, s, t, n) == Alone(h, s', t, n - 1)
  {
  }

  lemma Done(h: Hash, s: State, t: int, n: nat)
    requires s.Pc(t) == Idle
    ensures Alone(h, s, t, n) == s
  {
  }

  /** What a lookup at `addr` is to find: a free extent of `pool` that begins or ends there and, for one that wants no slabs, has its bit clear there. */
  predicate Sought(s: State, addr: int, only: bool, pool: int, x: int) {
    && x in s.exts && s.exts[x].mode == Free(pool) && s.exts[x].npages >= 1
    && (addr == s.exts[x].first || addr == s.exts[x].Last()) && (only ==> !s.At(addr).slab)
  }

  /** The word at a page names a free extent exactly when the page is an end of it. */
  lemma NamedEnd(h: Hash, s: State, addr: int, x: int, pool: int)
    requires Inv(h, s) && x in s.exts && s.exts[x].mode == Free(pool)
    ensures s.At(addr).ptr == x <==> s.exts[x].npages >= 1 && (addr == s.exts[x].first || addr == s.exts[x].Last())
  {
    hide Locked, Sized;
    if s.exts[x].Has(addr) {
      assert PageOk(s, x, addr);
    } else if s.At(addr).ptr == x {
      FreeNamesOwner(h, s, addr, x, pool);
    }
  }

  lemma FreeNamesOwner(h: Hash, s: State, addr: int, x: int, pool: int)
    requires Inv(h, s) && x in s.exts && s.exts[x].mode == Free(pool) && s.At(addr).ptr == x
    ensures s.exts[x].Has(addr)
  {
    hide Locked, Sized, Apart;
    NamesZero(s, x);
    NamesApart(s, x);
    var y :| y in s.exts && s.exts[y].Has(addr);
    assert PageOk(s, y, addr);
    if s.exts[y].mode.Held? { PcHolds(h, s, s.exts[y].mode.t); }
  }

  /** Where a lookup ends when it is let through: it claims what its word names, if that is free, or nothing. */
  function Found(s: State, t: int): State
    requires s.Pc(t).Load?
  {
    var Load(addr, only, pool) := s.Pc(t);
    var w := s.At(addr);
    if w.ptr != 0 && !(only && w.slab) && w.ptr in s.exts && s.exts[w.ptr].mode == Free(pool)
    then Go(Alter(s, w.ptr, s.exts[w.ptr].(mode := Held(t))), t, Idle) else Go(s, t, Idle)
  }

  lemma LookupRuns(h: Hash, s: State, t: int)
    requires s.Pc(t).Load? && h(s.At(s.Pc(t).addr).ptr) !in s.locks
    ensures Alone(h, s, t, 6) == Found(s, t)
  {
    hide Alone;
    var Load(addr, only, pool) := s.Pc(t);
    var p, k := s.At(addr).ptr, h(s.At(addr).ptr);
    if p == 0 {
      Onward(h, s, t, 6, LoadPtr, Go(s, t, Idle));
      Done(h, Go(s, t, Idle), t, 5);
    } else {
      Onward(h, s, t, 6, LoadPtr, Go(s, t, Bit(addr, only, pool, p)));
      BitRuns(h, s, Go(s, t, Bit(addr, only, pool, p)), t);
    }
  }

  lemma BitRuns(h: Hash, s: State, s1: State, t: int)
    requires s.Pc(t).Load? && s.At(s.Pc(t).addr).ptr != 0 && h(s.At(s.Pc(t).addr).ptr) !in s.locks
    requires s1 == Go(s, t, Bit(s.Pc(t).addr, s.Pc(t).only, s.Pc(t).pool, s.At(s.Pc(t).addr).ptr))
    ensures Alone(h, s1, t, 5) == Found(s, t)
  {
    hide Alone;
    var Load(addr, only, pool) := s.Pc(t);
    var p := s.At(addr).ptr;
    if only && s.At(addr).slab {
      assert Go(s1, t, Idle) == Go(s, t, Idle);
      Onward(h, s1, t, 5, LoadBit, Go(s, t, Idle));
      Done(h, Go(s, t, Idle), t, 4);
    } else {
      Onward(h, s1, t, 5, LoadBit, Go(s, t, Want(addr, only, pool, p)));
      WantRuns(h, s, Go(s, t, Want(addr, only, pool, p)), t);
    }
  }

  lemma WantLocks(h: Hash, s: State, t: int, n: nat, addr: int, only: bool, pool: int, p: int)
    requires n > 0 && s.Pc(t) == Want(addr, only, pool, p) && h(p) !in s.locks
    ensures Alone(h, s, t, n) == Alone(h, Go(Lock(s, h(p), t), t, Again(addr, only, pool, p)), t, n - 1)
  {
    hide Alone;
    Onward(h, s, t, n, LockOne, Go(Lock(s, h(p), t), t, Again(addr, only, pool, p)));
  }

  lemma AgainReads(h: Hash, s: State, t: int, n: nat, addr: int, only: bool, pool: int, p: int)
    requires n > 0 && s.Pc(t) == Again(addr, only, pool, p) && s.At(addr).ptr == p
    ensures Alone(h, s, t, n) == Alone(h, Go(s, t, Got(addr, pool, p, p in s.exts)), t, n - 1)
  {
    hide Alone;
    Onward(h, s, t, n, Reload, Go(s, t, Got(addr, pool, p, p in s.exts)));
  }

  lemma WantRuns(h: Hash, s: State, s2: State, t: int)
    requires s.Pc(t).Load? && s.At(s.Pc(t).addr).ptr != 0 && h(s.At(s.Pc(t).addr).ptr) !in s.locks && !(s.Pc(t).only && s.At(s.Pc(t).addr).slab)
    requires s2 == Go(s, t, Want(s.Pc(t).addr, s.Pc(t).only, s.Pc(t).pool, s.At(s.Pc(t).addr).ptr))
    ensures Alone(h, s2, t, 4) == Found(s, t)
  {
    hide Alone, Found;
    var Load(addr, only, pool) := s.Pc(t);
    var p := s.At(addr).ptr;
    WantLocks(h, s2, t, 4, addr, only, pool, p);
    var s3, s4 := Go(Lock(s2, h(p), t), t, Again(addr, only, pool, p)), Go(Lock(s, h(p), t), t, Got(addr, pool, p, p in s.exts));
    AgainReads(h, s3, t, 3, addr, only, pool, p);
    assert Go(s3, t, s4.Pc(t)).pcs == s4.pcs;
    GotRuns(h, s, s4, t);
  }

  lemma Relock(s: State, k: nat, t: int, pc: Pc, pc': Pc)
    requires k !in s.locks
    ensures Go(Unlock(Go(Lock(s, k, t), t, pc), k), t, pc') == Go(s, t, pc')
  {
  }

  lemma GotRuns(h: Hash, s: State, s4: State, t: int)
    requires s.Pc(t).Load? && s.At(s.Pc(t).addr).ptr != 0 && h(s.At(s.Pc(t).addr).ptr) !in s.locks && !(s.Pc(t).only && s.At(s.Pc(t).addr).slab)
    requires var p := s.At(s.Pc(t).addr).ptr; s4 == Go(Lock(s, h(p), t), t, Got(s.Pc(t).addr, s.Pc(t).pool, p, p in s.exts))
    ensures Alone(h, s4, t, 2) == Found(s, t)
  {
    hide Alone, Lock, Unlock;
    var Load(addr, only, pool) := s.Pc(t);
    var p := s.At(addr).ptr;
    var got := Got(addr, pool, p, p in s.exts);
    LockExts(s, h(p), t);
    if p in s.exts && s.exts[p].mode == Free(pool) {
      var s5 := Go(s, t, Chosen(addr, pool, p));
      Relock(s, h(p), t, got, s5.Pc(t));
      Onward(h, s4, t, 2, Decide, s5);
      ChosenRuns(h, s, s5, t, addr, pool, p);
    } else {
      Relock(s, h(p), t, got, Idle);
      Onward(h, s4, t, 2, Decide, Go(s, t, Idle));
      Done(h, Go(s, t, Idle), t, 1);
    }
  }

  lemma LockExts(s: State, k: nat, t: int)
    ensures Lock(s, k, t).exts == s.exts && Lock(s, k, t).pcs == s.pcs
  {
  }

  lemma ChosenRuns(h: Hash, s: State, s5: State, t: int, addr: int, pool: int, p: int)
    requires s5 == Go(s, t, Chosen(addr, pool, p)) && p in s.exts
    ensures Alone(h, s5, t, 1) == Go(Alter(s, p, s.exts[p].(mode := Held(t))), t, Idle)
  {
    hide Alone;
    var s6 := Go(Alter(s, p, s.exts[p].(mode := Held(t))), t, Idle);
    Onward(h, s5, t, 1, Claim, s6);
    Done(h, s6, t, 0);
  }

  /** Thread `t` has claimed the extent its lookup seeks, or nothing when there is none, and nothing else has changed. */
  ghost predicate HasSought(s: State, s': State, t: int)
    requires s.Pc(t).Load?
  {
    var Load(addr, only, pool) := s.Pc(t);
    && (forall x :: Sought(s, addr, only, pool, x) ==> s' == Go(Alter(s, x, s.exts[x].(mode := Held(t))), t, Idle))
    && ((forall x :: !Sought(s, addr, only, pool, x)) ==> s' == Go(s, t, Idle))
  }

  /** A lookup that nobody interferes with. */
  lemma LookupAlone(h: Hash, moves: seq<Move>, t: int)
    requires Run(h, Boot, moves) && After(h, Boot, moves).Pc(t).Load?
    requires var s := After(h, Boot, moves); h(s.At(s.Pc(t).addr).ptr) !in s.locks
    ensures HasSought(After(h, Boot, moves), Alone(h, After(h, Boot, moves), t, 6), t)
  {
    BootOk(h);
    RunKeeps(h, Boot, moves);
    hide Inv, Run, After, Alone, HasSought;
    LookupRuns(h, After(h, Boot, moves), t);
    LoadedSought(h, After(h, Boot, moves), t);
  }

  lemma LoadedSought(h: Hash, s: State, t: int)
    requires Inv(h, s) && s.Pc(t).Load?
    ensures HasSought(s, Found(s, t), t)
  {
    hide Inv, Alter, Go;
    InvNames(h, s);
    var Load(addr, only, pool) := s.Pc(t);
    forall x | Sought(s, addr, only, pool, x) ensures Found(s, t) == Go(Alter(s, x, s.exts[x].(mode := Held(t))), t, Idle) {
      NamedEnd(h, s, addr, x, pool);
    }
    var p := s.At(addr).ptr;
    if p in s.exts && s.exts[p].mode == Free(pool) && !(only && s.At(addr).slab) {
      NamedEnd(h, s, addr, p, pool);
      assert Sought(s, addr, only, pool, p);
    }
  }

  lemma InvNames(h: Hash, s: State)
    requires Inv(h, s)
    ensures Names(s)
  {
  }

  /** Pages `first` to `last` as one extent: its address with a clear bit at both ends, nothing between, and other pages as before. */
  ghost predicate Spans(s: State, s': State, x: int, first: int, last: int) {
    && s'.At(first) == Word(x, false) && s'.At(last) == Word(x, false)
    && (forall p :: first < p < last ==> s'.At(p).ptr == 0)
    && (forall p :: p < first || last < p ==> s'.At(p) == s.At(p))
  }

  /** The leaf writes and the resizing of a merge. */
  function Join(s: State, t: int, a: int, b: int): State
    requires a in s.exts && b in s.exts && a != b
  {
    var ea, eb := s.exts[a], s.exts[b];
    var s1 := Store(Store(s, ea.Last(), NULL), eb.first, NULL);
    var s2 := s1.(exts := (s.exts - {b})[a := ea.(npages := ea.npages + eb.npages)]);
    Go(Store(Store(s2, ea.first, Word(a, false)), eb.Last(), Word(a, false)), t, Idle)
  }

  lemma MergeNext(h: Hash, s: State, t: int, n: nat)
    requires n > 0 && s.Pc(t).MergeW? && s.Pc(t).a in s.exts && s.Pc(t).b in s.exts
    ensures Alone(h, s, t, n) == Alone(h, MergeDo(h, s, t), t, n - 1)
  {
    hide Alone, MergeDo;
    Onward(h, s, t, n, MergeStep, MergeDo(h, s, t));
  }

  /** The part of a merge before the new ends are written. */
  lemma MergeHalf(h: Hash, s: State, t: int, n: nat, a: int, b: int) returns (r: State)
    requires n >= 3 && a in s.exts && b in s.exts && a != b && s.Pc(t) == MergeW(a, b, s.exts[b].first, 1)
    ensures Alone(h, s, t, n) == Alone(h, r, t, n - 3)
    ensures r.exts == s.exts[b := s.exts[b].(npages := 0)][a := s.exts[a].(npages := s.exts[a].npages + s.exts[b].npages)]
    ensures r.words == s.words[s.exts[a].Last() := NULL][s.exts[b].first := NULL]
    ensures r.pcs == s.pcs[t := MergeW(a, b, s.exts[b].first, 4)] && r.locks == s.locks && r.mtx == s.mtx && r.vslabs == s.vslabs
  {
    hide Alone;
    var s1 := MergeDo(h, s, t);
    var s2 := MergeDo(h, s1, t);
    MergeNext(h, s, t, n);
    MergeNext(h, s1, t, n - 1);
    MergeNext(h, s2, t, n - 2);
    r := MergeDo(h, s2, t);
  }

  lemma MergeEnds(h: Hash, s: State, t: int, n: nat, a: int, b: int, mid: int) returns (r: State)
    requires n >= 2 && a in s.exts && b in s.exts && s.Pc(t) == MergeW(a, b, mid, 4)
    ensures Alone(h, s, t, n) == Alone(h, r, t, n - 2)
    ensures r.words == s.words[s.exts[a].first := Word(a, false)][s.exts[a].Last() := Word(a, false)]
    ensures r.pcs == s.pcs[t := MergeW(a, b, mid, 6)] && r.exts == s.exts && r.locks == s.locks && r.mtx == s.mtx && r.vslabs == s.vslabs
  {
    hide Alone;
    var s1 := MergeDo(h, s, t);
    MergeNext(h, s, t, n);
    MergeNext(h, s1, t, n - 1);
    r := MergeDo(h, s1, t);
  }

  lemma MergeRelease(h: Hash, s: State, t: int, n: nat, a: int, b: int, mid: int) returns (r: State)
    requires n >= 3 && a in s.exts && b in s.exts && s.Pc(t) == MergeW(a, b, mid, 6)
    ensures Alone(h, s, t, n) == r
    ensures r.exts == s.exts - {b} && r.locks == s.locks - {h(a), h(b)} && r.pcs == s.pcs[t := Idle]
    ensures r.words == s.words && r.mtx == s.mtx && r.vslabs == s.vslabs
  {
    hide Alone;
    var s1 := MergeDo(h, s, t);
    var s2 := MergeDo(h, s1, t);
    MergeNext(h, s, t, n);
    MergeNext(h, s1, t, n - 1);
    MergeNext(h, s2, t, n - 2);
    r := MergeDo(h, s2, t);
    Done(h, r, t, n - 3);
  }

  lemma MergeLocking(h: Hash, s: State, t: int, n: nat)
    requires n > 0 && (s.Pc(t).MergeA? || s.Pc(t).MergeB?) && s.Pc(t).b in s.exts
    requires (if s.Pc(t).MergeA? then Lo(h, s.Pc(t).a, s.Pc(t).b) else Hi(h, s.Pc(t).a, s.Pc(t).b)) !in s.locks
    ensures Alone(h, s, t, n) == Alone(h, MergeLockDo(h, s, t), t, n - 1)
  {
    hide Alone, MergeLockDo, Lo, Hi;
    Onward(h, s, t, n, MergeLock, MergeLockDo(h, s, t));
  }

  /** Both mutexes are taken, in their order, or the one that the two share. */
  lemma MergeTakes(h: Hash, s: State, t: int, n: nat, a: int, b: int) returns (m: nat, r: State)
    requires n >= 2 && a in s.exts && b in s.exts && s.Pc(t) == MergeA(a, b) && h(a) !in s.locks && h(b) !in s.locks
    ensures m >= n - 2 && Alone(h, s, t, n) == Alone(h, r, t, m)
    ensures r.locks == s.locks[h(a) := t][h(b) := t] && r.pcs == s.pcs[t := MergeW(a, b, s.exts[b].first, 1)]
    ensures r.exts == s.exts && r.words == s.words && r.mtx == s.mtx && r.vslabs == s.vslabs
  {
    hide Alone;
    MergeLocking(h, s, t, n);
    m, r := n - 1, MergeLockDo(h, s, t);
    if h(a) != h(b) {
      MergeLocking(h, r, t, n - 1);
      m, r := n - 2, MergeLockDo(h, r, t);
    }
    assert r.locks == s.locks[h(a) := t][h(b) := t];
    assert r.pcs == s.pcs[t := MergeW(a, b, s.exts[b].first, 1)];
  }

  lemma GivenBack(locks: map<nat, int>, j: nat, k: nat, t: int)
    requires j !in locks && k !in locks
    ensures locks[j := t][k := t] - {j, k} == locks
  {
  }

  lemma MergeRuns(h: Hash, s: State, t: int, a: int, b: int)
    requires a in s.exts && b in s.exts && a != b && s.Pc(t) == MergeA(a, b) && h(a) !in s.locks && h(b) !in s.locks
    requires s.exts[b].first == s.exts[a].first + s.exts[a].npages
    ensures Alone(h, s, t, 10) == Join(s, t, a, b)
  {
    hide Alone, Join;
    var m, s0 := MergeTakes(h, s, t, 10, a, b);
    MergeWork(h, s, s0, t, m, a, b);
  }

  lemma MergeWork(h: Hash, s: State, s0: State, t: int, n: nat, a: int, b: int)
    requires n >= 8 && a in s.exts && b in s.exts && a != b && h(a) !in s.locks && h(b) !in s.locks
    requires s.exts[b].first == s.exts[a].first + s.exts[a].npages
    requires s0.locks == s.locks[h(a) := t][h(b) := t] && s0.pcs == s.pcs[t := MergeW(a, b, s.exts[b].first, 1)]
    requires s0.exts == s.exts && s0.words == s.words && s0.mtx == s.mtx && s0.vslabs == s.vslabs
    ensures Alone(h, s0, t, n) == Join(s, t, a, b)
  {
    hide Alone, Join, Enabled, Do, MergeDo;
    var s1 := MergeHalf(h, s0, t, n, a, b);
    assert s1.exts[a].first == s.exts[a].first && s1.exts[a].Last() == s.exts[b].Last();
    var s2 := MergeEnds(h, s1, t, n - 3, a, b, s.exts[b].first);
    assert s2.words == s.words[s.exts[a].Last() := NULL][s.exts[b].first := NULL][s.exts[a].first := Word(a, false)][s.exts[b].Last() := Word(a, false)];
    var s3 := MergeRelease(h, s2, t, n - 5, a, b, s.exts[b].first);
    GivenBack(s.locks, h(a), h(b), t);
    assert s3.pcs == s.pcs[t := Idle];
    JoinMakes(s, s3, t, a, b);
  }

  lemma JoinMakes(s: State, r: State, t: int, a: int, b: int)
    requires a in s.exts && b in s.exts && a != b && s.exts[b].first == s.exts[a].first + s.exts[a].npages
    requires r.exts == s.exts[b := s.exts[b].(npages := 0)][a := s.exts[a].(npages := s.exts[a].npages + s.exts[b].npages)] - {b}
    requires r.words == s.words[s.exts[a].Last() := NULL][s.exts[b].first := NULL][s.exts[a].first := Word(a, false)][s.exts[b].Last() := Word(a, false)]
    requires r.pcs == s.pcs[t := Idle] && r.locks == s.locks && r.mtx == s.mtx && r.vslabs == s.vslabs
    ensures r == Join(s, t, a, b)
  {
    assert r.exts == Join(s, t, a, b).exts;
  }

  /** `a` is both extents, `b` is gone, and nothing else has changed. */
  ghost predicate HasMerged(s: State, s': State, t: int, a: int, b: int) {
    && a in s.exts && b in s.exts && s' == s.(exts := s'.exts, words := s'.words, pcs := s.pcs[t := Idle])
    && s'.exts == (s.exts - {b})[a := s.exts[a].(npages := s.exts[a].npages + s.exts[b].npages)]
    && Spans(s, s', a, s.exts[a].first, s.exts[b].Last())
  }

  /** A merge that nobody interferes with. */
  lemma MergeAlone(h: Hash, moves: seq<Move>, t: int, a: int, b: int)
    requires Run(h, Boot, moves) && After(h, Boot, moves).Pc(t) == MergeA(a, b)
    requires h(a) !in After(h, Boot, moves).locks && h(b) !in After(h, Boot, moves).locks
    ensures HasMerged(After(h, Boot, moves), Alone(h, After(h, Boot, moves), t, 10), t, a, b)
  {
    BootOk(h);
    RunKeeps(h, Boot, moves);
    hide Run, After, Inv, Alone, HasMerged;
    MergeOnce(h, After(h, Boot, moves), t, a, b);
  }

  lemma MergeOnce(h: Hash, s: State, t: int, a: int, b: int)
    requires Inv(h, s) && s.Pc(t) == MergeA(a, b) && h(a) !in s.locks && h(b) !in s.locks
    ensures HasMerged(s, Alone(h, s, t, 10), t, a, b)
  {
    hide Alone, Inv, Spans, Join, ReadyMerge;
    MergeReady(h, s, t, a, b);
    MergeRuns(h, s, t, a, b);
    JoinFields(s, t, a, b);
    JoinSpans(h, s, t, a, b);
  }

  lemma MergeReady(h: Hash, s: State, t: int, a: int, b: int)
    requires Inv(h, s) && s.Pc(t) == MergeA(a, b)
    ensures ReadyMerge(s, t, a, b) && a in s.exts && b in s.exts && a != b && s.exts[b].first == s.exts[a].first + s.exts[a].npages
  {
    hide Names, Apart, Sized, Pages, Locked, Pcs;
    PcHolds(h, s, t);
  }

  lemma JoinFields(s: State, t: int, a: int, b: int)
    requires a in s.exts && b in s.exts && a != b
    ensures var s' := Join(s, t, a, b);
      && s' == s.(exts := s'.exts, words := s'.words, pcs := s.pcs[t := Idle])
      && s'.exts == (s.exts - {b})[a := s.exts[a].(npages := s.exts[a].npages + s.exts[b].npages)]
  {
  }

  lemma JoinSpans(h: Hash, s: State, t: int, a: int, b: int)
    requires Inv(h, s) && s.Pc(t) == MergeA(a, b) && ReadyMerge(s, t, a, b)
    ensures Spans(s, Join(s, t, a, b), a, s.exts[a].first, s.exts[b].Last())
  {
    hide Names, Apart, Sized, Locked, Pcs;
    var s' := Join(s, t, a, b);
    forall p | s.exts[a].first < p < s.exts[b].Last() ensures s'.At(p).ptr == 0 {
      if s.exts[a].Has(p) { assert PageOk(s, a, p); } else { assert s.exts[b].Has(p) && PageOk(s, b, p); }
    }
  }

  lemma SplitNext(h: Hash, s: State, t: int, n: nat)
    requires n > 0 && s.Pc(t).SplitW? && s.Pc(t).e in s.exts && s.Pc(t).y in s.exts && s.Pc(t).n <= s.exts[s.Pc(t).e].npages
    ensures Alone(h, s, t, n) == Alone(h, SplitDo(h, s, t), t, n - 1)
  {
    hide Alone, SplitDo;
    Onward(h, s, t, n, SplitStep, SplitDo(h, s, t));
  }

  lemma SplitLocking(h: Hash, s: State, t: int, n: nat)
    requires n > 0 && (s.Pc(t).SplitA? || s.Pc(t).SplitB?)
    requires (if s.Pc(t).SplitA? then Lo(h, s.Pc(t).e, s.Pc(t).y) else Hi(h, s.Pc(t).e, s.Pc(t).y)) !in s.locks
    ensures Alone(h, s, t, n) == Alone(h, SplitLockDo(h, s, t), t, n - 1)
  {
    hide Alone, SplitLockDo, Lo, Hi;
    Onward(h, s, t, n, SplitLock, SplitLockDo(h, s, t));
  }

  lemma SplitTakes(h: Hash, s: State, t: int, f: nat, e: int, y: int, n: nat, w: Word) returns (m: nat, r: State)
    requires f >= 2 && s.Pc(t) == SplitA(e, y, n, w) && h(e) !in s.locks && h(y) !in s.locks
    ensures m >= f - 2 && Alone(h, s, t, f) == Alone(h, r, t, m)
    ensures r.locks == s.locks[h(e) := t][h(y) := t] && r.pcs == s.pcs[t := SplitW(e, y, n, w, 1)]
    ensures r.exts == s.exts && r.words == s.words && r.mtx == s.mtx && r.vslabs == s.vslabs
  {
    hide Alone;
    SplitLocking(h, s, t, f);
    m, r := f - 1, SplitLockDo(h, s, t);
    if h(e) != h(y) {
      SplitLocking(h, r, t, f - 1);
      m, r := f - 2, SplitLockDo(h, r, t);
    }
    assert r.locks == s.locks[h(e) := t][h(y) := t];
    assert r.pcs == s.pcs[t := SplitW(e, y, n, w, 1)];
  }

  /** The extents after a split. */
  function Parted(exts: map<int, Extent>, e: int, y: int, n: nat, w: Word): map<int, Extent>
    requires e in exts && y in exts && n <= exts[e].npages
  {
    exts[y := exts[y].(npages := exts[e].npages - n)][e := exts[e].(npages := n, loose := w.slab)]
  }

  /** The part of a split that writes the ends of the first half. */
  lemma SplitLead(h: Hash, s: State, t: int, f: nat, e: int, y: int, n: nat, w: Word) returns (r: State)
    requires f >= 3 && e in s.exts && y in s.exts && e != y && n <= s.exts[e].npages && s.Pc(t) == SplitW(e, y, n, w, 1)
    ensures Alone(h, s, t, f) == Alone(h, r, t, f - 3)
    ensures r.exts == Parted(s.exts, e, y, n, w) && r.words == s.words[s.exts[e].first := w][s.exts[e].first + n - 1 := w]
    ensures r.pcs == s.pcs[t := SplitW(e, y, n, w, 4)] && r.locks == s.locks && r.mtx == s.mtx && r.vslabs == s.vslabs
  {
    hide Alone;
    var s1 := SplitDo(h, s, t);
    var s2 := SplitDo(h, s1, t);
    SplitNext(h, s, t, f);
    SplitNext(h, s1, t, f - 1);
    SplitNext(h, s2, t, f - 2);
    r := SplitDo(h, s2, t);
  }

  lemma SplitTrail(h: Hash, s: State, t: int, f: nat, e: int, y: int, n: nat, w: Word) returns (r: State)
    requires f >= 2 && e in s.exts && y in s.exts && n <= s.exts[e].npages && s.Pc(t) == SplitW(e, y, n, w, 4)
    ensures Alone(h, s, t, f) == Alone(h, r, t, f - 2)
    ensures r.words == s.words[s.exts[y].first := Word(y, false)][s.exts[y].Last() := Word(y, false)]
    ensures r.pcs == s.pcs[t := SplitW(e, y, n, w, 6)] && r.locks == s.locks && r.exts == s.exts && r.mtx == s.mtx && r.vslabs == s.vslabs
  {
    hide Alone;
    var s1 := SplitDo(h, s, t);
    SplitNext(h, s, t, f);
    SplitNext(h, s1, t, f - 1);
    r := SplitDo(h, s1, t);
  }

  lemma SplitRelease(h: Hash, s: State, t: int, f: nat, e: int, y: int, n: nat, w: Word) returns (r: State)
    requires f >= 2 && e in s.exts && y in s.exts && n <= s.exts[e].npages && s.Pc(t) == SplitW(e, y, n, w, 6)
    ensures Alone(h, s, t, f) == r
    ensures r.locks == s.locks - {h(e), h(y)} && r.pcs == s.pcs[t := Idle]
    ensures r.words == s.words && r.exts == s.exts && r.mtx == s.mtx && r.vslabs == s.vslabs
  {
    hide Alone;
    var s1 := SplitDo(h, s, t);
    SplitNext(h, s, t, f);
    SplitNext(h, s1, t, f - 1);
    r := SplitDo(h, s1, t);
    Done(h, r, t, f - 2);
  }

  /** The pages of an extent cut in two after `n`: its ends read `w`, the new extent's name it, nothing between them, and other pages as before. */
  ghost predicate Cut(s: State, s': State, y: int, first: int, n: nat, last: int, w: Word) {
    && s'.At(first) == w && s'.At(first + n - 1) == w && s'.At(first + n) == Word(y, false) && s'.At(last) == Word(y, false)
    && (forall p :: first < p < last && p != first + n - 1 && p != first + n ==> s'.At(p).ptr == 0)
    && (forall p :: p < first || last < p ==> s'.At(p) == s.At(p))
  }

  lemma SplitRuns(h: Hash, s: State, t: int, e: int, y: int, n: nat, w: Word) returns (r: State)
    requires e in s.exts && y in s.exts && e != y && n <= s.exts[e].npages && s.Pc(t) == SplitA(e, y, n, w) && h(e) !in s.locks && h(y) !in s.locks
    ensures Alone(h, s, t, 9) == r && r.exts == Parted(s.exts, e, y, n, w)
    ensures r.pcs == s.pcs[t := Idle] && r.locks == s.locks && r.mtx == s.mtx && r.vslabs == s.vslabs
    ensures r.words == s.words[s.exts[e].first := w][s.exts[e].first + n - 1 := w][s.exts[y].first := Word(y, false)][r.exts[y].Last() := Word(y, false)]
  {
    hide Alone;
    var m, s0 := SplitTakes(h, s, t, 9, e, y, n, w);
    var s1 := SplitLead(h, s0, t, m, e, y, n, w);
    var s2 := SplitTrail(h, s1, t, m - 3, e, y, n, w);
    r := SplitRelease(h, s2, t, m - 5, e, y, n, w);
    GivenBack(s.locks, h(e), h(y), t);
    assert r.pcs == s.pcs[t := Idle];
  }

  /** `e` keeps its first `n` pages, `y` has the others, and nothing else has changed. */
  ghost predicate HasSplit(s: State, s': State, t: int, e: int, y: int, n: nat, w: Word) {
    && e in s.exts && y in s.exts && 0 < n < s.exts[e].npages
    && s' == s.(exts := s'.exts, words := s'.words, pcs := s.pcs[t := Idle])
    && s'.exts == s.exts[e := s.exts[e].(npages := n, loose := w.slab)][y := Extent(s.exts[e].first + n, s.exts[e].npages - n, Held(t), false)]
    && Cut(s, s', y, s.exts[e].first, n, s.exts[e].Last(), w)
  }

  /** A split that nobody interferes with. */
  lemma SplitAlone(h: Hash, moves: seq<Move>, t: int, e: int, y: int, n: nat, w: Word)
    requires Run(h, Boot, moves) && After(h, Boot, moves).Pc(t) == SplitA(e, y, n, w)
    requires h(e) !in After(h, Boot, moves).locks && h(y) !in After(h, Boot, moves).locks
    ensures HasSplit(After(h, Boot, moves), Alone(h, After(h, Boot, moves), t, 9), t, e, y, n, w)
  {
    BootOk(h);
    RunKeeps(h, Boot, moves);
    hide Run, After, Inv, Alone, HasSplit;
    SplitOnce(h, After(h, Boot, moves), t, e, y, n, w);
  }

  lemma SplitOnce(h: Hash, s: State, t: int, e: int, y: int, n: nat, w: Word)
    requires Inv(h, s) && s.Pc(t) == SplitA(e, y, n, w) && h(e) !in s.locks && h(y) !in s.locks
    ensures HasSplit(s, Alone(h, s, t, 9), t, e, y, n, w)
  {
    hide Alone, Inv, Cut, ReadySplit, Parted;
    SplitReady(h, s, t, e, y, n, w);
    var r := SplitRuns(h, s, t, e, y, n, w);
    PartedIs(s.exts, e, y, n, w, t);
    CutReads(h, s, r, t, e, y, n, w);
  }

  lemma PartedIs(exts: map<int, Extent>, e: int, y: int, n: nat, w: Word, t: int)
    requires e in exts && y in exts && e != y && n <= exts[e].npages && exts[y] == Extent(exts[e].first + n, 0, Held(t), false)
    ensures Parted(exts, e, y, n, w) == exts[e := exts[e].(npages := n, loose := w.slab)][y := Extent(exts[e].first + n, exts[e].npages - n, Held(t), false)]
    ensures Parted(exts, e, y, n, w)[y].Last() == exts[e].Last()
  {
  }

  lemma SplitReady(h: Hash, s: State, t: int, e: int, y: int, n: nat, w: Word)
    requires Inv(h, s) && s.Pc(t) == SplitA(e, y, n, w)
    ensures ReadySplit(s, t, e, y, n, w) && e in s.exts && y in s.exts && e != y && 0 < n < s.exts[e].npages
    ensures s.exts[y] == Extent(s.exts[e].first + n, 0, Held(t), false)
  {
    hide Names, Apart, Sized, Pages, Locked, Pcs;
    PcHolds(h, s, t);
  }

  lemma CutReads(h: Hash, s: State, r: State, t: int, e: int, y: int, n: nat, w: Word)
    requires Inv(h, s) && s.Pc(t) == SplitA(e, y, n, w) && ReadySplit(s, t, e, y, n, w)
    requires r.words == s.words[s.exts[e].first := w][s.exts[e].first + n - 1 := w][s.exts[y].first := Word(y, false)][s.exts[e].Last() := Word(y, false)]
    ensures Cut(s, r, y, s.exts[e].first, n, s.exts[e].Last(), w)
  {
    hide Names, Apart, Sized, Locked, Pcs;
    forall p | s.exts[e].first < p < s.exts[e].Last() && p != s.exts[e].first + n - 1 && p != s.exts[e].first + n ensures r.At(p).ptr == 0 {
      assert s.exts[e].Has(p) && PageOk(s, e, p);
    }
  }

  /** A free-list mutex passes from a thread that drops it to one that waits for it. */
  lemma MtxPasses(h: Hash, s: State, t: int, u: int, pool: int)
    requires Inv(h, s) && s.Pc(t).Idle? && s.HasMtx(pool, t) && s.Pc(u) == WantMtx(pool)
    ensures !Enabled(h, s, u, TakeMtx) && Enabled(h, s, t, DropMtx(pool))
    ensures var s1 := Do(h, s, t, DropMtx(pool)); Enabled(h, s1, u, TakeMtx) && Do(h, s1, u, TakeMtx) == s.(pcs := s.pcs[u := Idle], mtx := s.mtx[pool := u])
  {
    hide Inv;
    assert (s.mtx - {pool})[pool := u] == s.mtx[pool := u];
  }

  // ------------------------------------------------------------------ no cyclic wait

  /** Thread `t` waits for a mutex that thread `u` has. */
  predicate Blocked(h: Hash, s: State, t: int, u: int) {
    var w := Waits(h, s.Pc(t));
    || (w.Some? && w.value in s.locks && s.locks[w.value] == u)
    || (s.Pc(t).WantMtx? && s.HasMtx(s.Pc(t).pool, u))
  }

  /** Mutexes in the order in which threads take them: a free-list mutex, then pool mutexes upwards. */
  function Rank(h: Hash, s: State, t: int): int {
    var w := Waits(h, s.Pc(t));
    if w.Some? then w.value else -1
  }

  lemma BlockedRises(h: Hash, s: State, t: int, u: int, v: int)
    requires Inv(h, s) && Blocked(h, s, t, u) && Blocked(h, s, u, v)
    ensures Rank(h, s, t) < Rank(h, s, u)
  {
    PcHolds(h, s, u);
    NoLocks(h, s, u);
  }

  lemma {:induction false} ChainRises(h: Hash, s: State, chain: seq<int>)
    requires Inv(h, s) && |chain| >= 3 && forall i :: 0 <= i < |chain| - 1 ==> Blocked(h, s, chain[i], chain[i + 1])
    ensures Rank(h, s, chain[0]) < Rank(h, s, chain[|chain| - 2])
  {
    var n := |chain|;
    BlockedRises(h, s, chain[n - 3], chain[n - 2], chain[n - 1]);
    if n > 3 {
      var init := chain[..n - 1];
      assert forall i :: 0 <= i < |init| - 1 ==> Blocked(h, s, init[i], init[i + 1]);
      ChainRises(h, s, init);
    }
  }

  /** No run reaches a state in which threads wait for each other in a circle, whatever the hash. */
  lemma NoDeadlock(h: Hash, moves: seq<Move>, circle: seq<int>)
    requires Run(h, Boot, moves) && |circle| >= 1
    ensures var s := After(h, Boot, moves);
      exists i :: 0 <= i < |circle| && !Blocked(h, s, circle[i], circle[if i + 1 < |circle| then i + 1 else 0])
  {
    BootOk(h);
    RunKeeps(h, Boot, moves);
    var s := After(h, Boot, moves);
    var n := |circle|;
    if forall i :: 0 <= i < n ==> Blocked(h, s, circle[i], circle[if i + 1 < n then i + 1 else 0]) {
      var chain := circle + [circle[0], if n > 1 then circle[1] else circle[0]];
      forall i | 0 <= i < |chain| - 1 ensures Blocked(h, s, chain[i], chain[i + 1]) {
        assert Blocked(h, s, circle[if i < n then i else 0], circle[if i + 1 < n then i + 1 else if i + 1 == n then 0 else if n > 1 then 1 else 0]);
      }
      ChainRises(h, s, chain);
      assert false;
    }
  }

  // ------------------------------------------------------------------ a lookup that is mistaken

  ghost predicate Reach(h: Hash, s: State) {
    exists moves :: Run(h, Boot, moves) && After(h, Boot, moves) == s
  }

  lemma {:induction false} RunOn(h: Hash, s: State, moves: seq<Move>, m: Move)
    requires Run(h, s, moves) && Enabled(h, After(h, s, moves), m.t, m.st)
    ensures Run(h, s, moves + [m]) && After(h, s, moves + [m]) == Do(h, After(h, s, moves), m.t, m.st)
    decreases |moves|
  {
    if moves != [] {
      assert (moves + [m])[1..] == moves[1..] + [m];
      RunOn(h, Do(h, s, moves[0].t, moves[0].st), moves[1..], m);
    } else {
      assert moves + [m] == [m];
    }
  }

  lemma Next(h: Hash, s: State, t: int, st: Step, s': State) returns (r: State)
    requires Reach(h, s) && Enabled(h, s, t, st) && Do(h, s, t, st) == s'
    ensures r == s' && Reach(h, r)
  {
    var moves :| Run(h, Boot, moves) && After(h, Boot, moves) == s;
    RunOn(h, Boot, moves, Move(t, st));
    r := s';
  }

  lemma SearcherReady(h: Hash) returns (s: State)
    ensures Reach(h, s) && s == State(map[1 := Idle], map[], {}, map[], map[], map[0 := 1])
  {
    s := Boot;
    assert Run(h, Boot, []) && After(h, Boot, []) == s;
    s := Next(h, s, 1, AskMtx(0), s.(pcs := map[1 := WantMtx(0)]));
    s := Next(h, s, 1, TakeMtx, s.(pcs := map[1 := Idle], mtx := map[0 := 1]));
  }

  /** Thread 2 maps page 5 for a slab whose descriptor lies at 99. */
  lemma SlabMapped(h: Hash) returns (s: State)
    ensures Reach(h, s) && s == State(map[1 := Idle, 2 := RegA(10)], map[10 := Extent(5, 1, Held(2), true)], {99}, map[], map[], map[0 := 1])
  {
    hide Reach, Run, After, MergeDo, SplitDo, MergeLockDo, SplitLockDo, WordFor, Lo, Hi;
    s := SearcherReady(h);
    s := Next(h, s, 2, NewSlab(99), s.(vslabs := {99}));
    s := Next(h, s, 2, Fresh(10, 5, 1), s.(pcs := map[1 := Idle, 2 := RegA(10)], exts := map[10 := Extent(5, 1, Held(2), true)]));
  }

  lemma SlabWritten(h: Hash) returns (s: State)
    ensures Reach(h, s) && s == State(map[1 := Idle, 2 := RegW(10)], map[10 := Extent(5, 1, Held(2), true)], {99}, map[5 := Word(99, true)], map[h(10) := 2], map[0 := 1])
  {
    hide Reach, Run, After, MergeDo, SplitDo, MergeLockDo, SplitLockDo, WordFor, Lo, Hi;
    s := SlabMapped(h);
    s := Next(h, s, 2, RegLock, s.(pcs := map[1 := Idle, 2 := RegW(10)], locks := map[h(10) := 2]));
    s := Next(h, s, 2, WriteSlab(10, 5, 99), s.(words := map[5 := Word(99, true)]));
  }

  lemma SlabUnlocked(h: Hash) returns (s: State)
    ensures Reach(h, s) && s == State(map[1 := Idle, 2 := Idle], map[10 := Extent(5, 1, Held(2), true)], {99}, map[5 := Word(99, true)], map[], map[0 := 1])
  {
    hide Reach, Run, After, MergeDo, SplitDo, MergeLockDo, SplitLockDo, WordFor, Lo, Hi;
    s := SlabWritten(h);
    s := Next(h, s, 2, RegUnlock, s.(pcs := map[1 := Idle, 2 := Idle], locks := map[]));
  }

  lemma SlabRegistered(h: Hash) returns (s: State)
    ensures Reach(h, s) && s == State(map[1 := Load(5, true, 0), 2 := Idle], map[10 := Extent(5, 1, Held(2), true)], {99}, map[5 := Word(99, true)], map[], map[0 := 1])
  {
    hide Reach, Run, After, MergeDo, SplitDo, MergeLockDo, SplitLockDo, WordFor, Lo, Hi;
    s := SlabUnlocked(h);
    s := Next(h, s, 1, Search(5, true, 0), s.(pcs := map[1 := Load(5, true, 0), 2 := Idle]));
  }

  /** Thread 1 looks the page up and has read the descriptor, not yet the slab bit. */
  lemma DescriptorRead(h: Hash) returns (s: State)
    ensures Reach(h, s) && s == State(map[1 := Bit(5, true, 0, 99), 2 := WantMtx(1)], map[10 := Extent(5, 1, Held(2), true)], {99}, map[5 := Word(99, true)], map[], map[0 := 1])
  {
    hide Reach, Run, After, MergeDo, SplitDo, MergeLockDo, SplitLockDo, WordFor, Lo, Hi;
    s := SlabRegistered(h);
    s := Next(h, s, 1, LoadPtr, s.(pcs := map[1 := Bit(5, true, 0, 99), 2 := Idle]));
    s := Next(h, s, 2, AskMtx(1), s.(pcs := map[1 := Bit(5, true, 0, 99), 2 := WantMtx(1)]));
  }

  lemma SlabCleared(h: Hash) returns (s: State)
    ensures Reach(h, s) && s == State(map[1 := Bit(5, true, 0, 99), 2 := Idle], map[10 := Extent(5, 1, Held(2), true)], {99}, map[5 := Word(10, true)], map[], map[0 := 1, 1 := 2])
  {
    hide Reach, Run, After, MergeDo, SplitDo, MergeLockDo, SplitLockDo, WordFor, Lo, Hi;
    s := DescriptorRead(h);
    s := Next(h, s, 2, TakeMtx, s.(pcs := map[1 := Bit(5, true, 0, 99), 2 := Idle], mtx := map[0 := 1, 1 := 2]));
    s := Next(h, s, 2, WriteEnd(10, 5, true), s.(words := map[5 := Word(10, true)]));
  }

  lemma SlabTidied(h: Hash) returns (s: State)
    ensures Reach(h, s) && s == State(map[1 := Bit(5, true, 0, 99), 2 := Idle], map[10 := Extent(5, 1, Held(2), false)], {99}, map[5 := Word(10, true)], map[], map[0 := 1, 1 := 2])
  {
    hide Reach, Run, After, MergeDo, SplitDo, MergeLockDo, SplitLockDo, WordFor, Lo, Hi;
    s := SlabCleared(h);
    s := Next(h, s, 2, Tighten(10), s.(exts := map[10 := Extent(5, 1, Held(2), false)]));
  }

  /** Thread 2 has freed the slab. */
  lemma SlabFreed(h: Hash) returns (s: State)
    ensures Reach(h, s) && s == State(map[1 := Bit(5, true, 0, 99), 2 := Idle], map[10 := Extent(5, 1, Free(1), false)], {99}, map[5 := Word(10, true)], map[], map[0 := 1, 1 := 2])
  {
    hide Reach, Run, After, MergeDo, SplitDo, MergeLockDo, SplitLockDo, WordFor, Lo, Hi;
    s := SlabTidied(h);
    s := Next(h, s, 2, Put(10, 1), s.(exts := map[10 := Extent(5, 1, Free(1), false)]));
  }

  lemma FreedLoaded(h: Hash) returns (s: State)
    ensures Reach(h, s) && s == State(map[1 := Bit(5, true, 0, 99), 2 := Bit(5, false, 1, 10)], map[10 := Extent(5, 1, Free(1), false)], {99}, map[5 := Word(10, true)], map[], map[0 := 1, 1 := 2])
  {
    hide Reach, Run, After, MergeDo, SplitDo, MergeLockDo, SplitLockDo, WordFor, Lo, Hi;
    s := SlabFreed(h);
    s := Next(h, s, 2, Search(5, false, 1), s.(pcs := map[1 := Bit(5, true, 0, 99), 2 := Load(5, false, 1)]));
    s := Next(h, s, 2, LoadPtr, s.(pcs := map[1 := Bit(5, true, 0, 99), 2 := Bit(5, false, 1, 10)]));
  }

  lemma FreedLocked(h: Hash) returns (s: State)
    ensures Reach(h, s) && s == State(map[1 := Bit(5, true, 0, 99), 2 := Again(5, false, 1, 10)], map[10 := Extent(5, 1, Free(1), false)], {99}, map[5 := Word(10, true)], map[h(10) := 2], map[0 := 1, 1 := 2])
  {
    hide Reach, Run, After, MergeDo, SplitDo, MergeLockDo, SplitLockDo, WordFor, Lo, Hi;
    s := FreedLoaded(h);
    s := Next(h, s, 2, LoadBit, s.(pcs := map[1 := Bit(5, true, 0, 99), 2 := Want(5, false, 1, 10)]));
    s := Next(h, s, 2, LockOne, s.(pcs := map[1 := Bit(5, true, 0, 99), 2 := Again(5, false, 1, 10)], locks := map[h(10) := 2]));
  }

  /** A set slab bit does not mean a slab: a freed slab of one page keeps the bit, and a lookup there comes back with the plain extent. */
  lemma LookupOfFreedSlab(h: Hash) returns (s: State)
    ensures Reach(h, s) && s.At(5) == Word(10, true) && 10 in s.exts && s.exts[10].mode == Free(1) && !s.exts[10].loose
    ensures s.Pc(2) == Got(5, 1, 10, true)
  {
    hide Reach, Run, After, MergeDo, SplitDo, MergeLockDo, SplitLockDo, WordFor, Lo, Hi;
    s := FreedLocked(h);
    s := Next(h, s, 2, Reload, s.(pcs := map[1 := Bit(5, true, 0, 99), 2 := Got(5, 1, 10, true)]));
  }

  /** Its descriptor is freed and the extent goes out whole to a large allocation. */
  lemma PlainTaken(h: Hash) returns (s: State)
    ensures Reach(h, s) && s == State(map[1 := Bit(5, true, 0, 99), 2 := Idle], map[10 := Extent(5, 1, Held(2), false)], {}, map[5 := Word(10, true)], map[], map[0 := 1, 1 := 2])
  {
    hide Reach, Run, After, MergeDo, SplitDo, MergeLockDo, SplitLockDo, WordFor, Lo, Hi;
    s := SlabFreed(h);
    s := Next(h, s, 2, FreeSlab(99), s.(vslabs := {}));
    s := Next(h, s, 2, Take(10, 1), s.(exts := map[10 := Extent(5, 1, Held(2), false)]));
  }

  lemma BitCleared(h: Hash) returns (s: State)
    ensures Reach(h, s) && s == State(map[1 := Bit(5, true, 0, 99), 2 := Idle], map[10 := Extent(5, 1, Held(2), true)], {}, map[5 := Word(10, false)], map[], map[0 := 1, 1 := 2])
  {
    hide Reach, Run, After, MergeDo, SplitDo, MergeLockDo, SplitLockDo, WordFor, Lo, Hi;
    s := PlainTaken(h);
    s := Next(h, s, 2, Loosen(10), s.(exts := map[10 := Extent(5, 1, Held(2), true)]));
    s := Next(h, s, 2, WriteEnd(10, 5, false), s.(words := map[5 := Word(10, false)]));
  }

  lemma PlainTidied(h: Hash) returns (s: State)
    ensures Reach(h, s) && s == State(map[1 := Bit(5, true, 0, 99), 2 := Idle], map[10 := Extent(5, 1, Held(2), false)], {}, map[5 := Word(10, false)], map[], map[0 := 1, 1 := 2])
  {
    hide Reach, Run, After, MergeDo, SplitDo, MergeLockDo, SplitLockDo, WordFor, Lo, Hi;
    s := BitCleared(h);
    s := Next(h, s, 2, Tighten(10), s.(exts := map[10 := Extent(5, 1, Held(2), false)]));
  }

  /** The allocation cleared the slab bit, and thread 1 reads it. */
  lemma BitRead(h: Hash) returns (s: State)
    ensures Reach(h, s) && s == State(map[1 := Want(5, true, 0, 99), 2 := Idle], map[10 := Extent(5, 1, Held(2), false)], {}, map[5 := Word(10, false)], map[], map[0 := 1, 1 := 2])
  {
    hide Reach, Run, After, MergeDo, SplitDo, MergeLockDo, SplitLockDo, WordFor, Lo, Hi;
    s := PlainTidied(h);
    s := Next(h, s, 1, LoadBit, s.(pcs := map[1 := Want(5, true, 0, 99), 2 := Idle]));
  }

  lemma TakenAgain(h: Hash) returns (s: State)
    ensures Reach(h, s) && s == State(map[1 := Want(5, true, 0, 99), 2 := Idle], map[10 := Extent(5, 1, Held(2), false)], {}, map[5 := Word(10, false)], map[], map[0 := 1, 1 := 2])
  {
    hide Reach, Run, After, MergeDo, SplitDo, MergeLockDo, SplitLockDo, WordFor, Lo, Hi;
    s := BitRead(h);
    s := Next(h, s, 2, Put(10, 1), s.(exts := map[10 := Extent(5, 1, Free(1), false)]));
    s := Next(h, s, 2, Take(10, 1), s.(exts := map[10 := Extent(5, 1, Held(2), false)]));
  }

  lemma SlabPending(h: Hash) returns (s: State)
    ensures Reach(h, s) && s == State(map[1 := Want(5, true, 0, 99), 2 := Idle], map[10 := Extent(5, 1, Held(2), true)], {99}, map[5 := Word(10, false)], map[], map[0 := 1, 1 := 2])
  {
    hide Reach, Run, After, MergeDo, SplitDo, MergeLockDo, SplitLockDo, WordFor, Lo, Hi;
    s := TakenAgain(h);
    s := Next(h, s, 2, NewSlab(99), s.(vslabs := {99}));
    s := Next(h, s, 2, Loosen(10), s.(exts := map[10 := Extent(5, 1, Held(2), true)]));
  }

  lemma SlabRewritten(h: Hash) returns (s: State)
    ensures Reach(h, s) && s == State(map[1 := Want(5, true, 0, 99), 2 := Idle], map[10 := Extent(5, 1, Held(2), true)], {99}, map[5 := Word(99, true)], map[], map[0 := 1, 1 := 2])
  {
    hide Reach, Run, After, MergeDo, SplitDo, MergeLockDo, SplitLockDo, WordFor, Lo, Hi;
    s := SlabPending(h);
    s := Next(h, s, 2, WriteSlab(10, 5, 99), s.(words := map[5 := Word(99, true)]));
  }

  /** Freed once more, the extent becomes a slab, whose descriptor malloc puts at 99. */
  lemma SlabAgain(h: Hash) returns (s: State)
    ensures Reach(h, s) && s == State(map[1 := Again(5, true, 0, 99), 2 := Idle], map[10 := Extent(5, 1, Held(2), true)], {99}, map[5 := Word(99, true)], map[h(99) := 1], map[0 := 1, 1 := 2])
  {
    hide Reach, Run, After, MergeDo, SplitDo, MergeLockDo, SplitLockDo, WordFor, Lo, Hi;
    s := SlabRewritten(h);
    s := Next(h, s, 1, LockOne, s.(pcs := map[1 := Again(5, true, 0, 99), 2 := Idle], locks := map[h(99) := 1]));
  }

  /**
    A run in which a lookup that wants inactive extents only comes back with a
    slab descriptor: between its reads the page goes from slab to plain extent to
    slab, and the second descriptor is where the first one was.
   */
  lemma LookupMistaken(h: Hash) returns (s: State)
    ensures Reach(h, s) && s == State(map[1 := Got(5, 0, 99, false), 2 := Idle], map[10 := Extent(5, 1, Held(2), true)], {99}, map[5 := Word(99, true)], map[h(99) := 1], map[0 := 1, 1 := 2])
  {
    hide Reach, Run, After, MergeDo, SplitDo, MergeLockDo, SplitLockDo, WordFor, Lo, Hi;
    s := SlabAgain(h);
    s := Next(h, s, 1, Reload, s.(pcs := map[1 := Got(5, 0, 99, false), 2 := Idle]));
  }
}
