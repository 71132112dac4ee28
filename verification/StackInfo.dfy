/** Finding the stack of a thread, past the guard pages its pointer may have run into. */
module StackInfo {
  import opened Bytes
  import opened Maps
  import opened Sanitizer

  /** Overflow stands for the addition that steps past the top of the address space. */
  datatype Outcome = Found(pointer: nat, length: nat) | NoStackPointerMapping | Overflow

  const GUARD_SIZE := 0x10_0000

  predicate MayBeStack(mapping: Option<MappingInfo>) {
    mapping.Some? && (ReadFlag in mapping.value.perms || WriteFlag in mapping.value.perms)
  }

  /** The page an address lies in (page sizes are powers of two). */
  function PageOf(a: nat, page: nat): (b: nat)
    requires page > 0
    ensures b <= a < b + page
  {
    a - a % page
  }

  function NthPage(base: nat, page: nat, k: nat): nat { base + k * page }

  /** The page could hold the stack: its mapping can be read or written. */
  predicate StackAt(infos: seq<MappingInfo>, base: nat, page: nat, k: nat) {
    MayBeStack(FindMapping(infos, NthPage(base, page, k)))
  }

  /** The search passed over k pages, none of them a stack and none beyond the limit. */
  predicate Passed(infos: seq<MappingInfo>, base: nat, page: nat, limit: nat, k: nat) {
    forall j :: 0 <= j < k ==> !StackAt(infos, base, page, j) && NthPage(base, page, j) <= limit
  }

  /** The search ends at page k: the first that could be a stack or lies beyond the limit. */
  predicate StopsAt(infos: seq<MappingInfo>, base: nat, page: nat, limit: nat, k: nat) {
    Passed(infos, base, page, limit, k)
    && (StackAt(infos, base, page, k) || NthPage(base, page, k) > limit)
  }

  /** What is reported for the mapping found at address p. */
  predicate Reports(r: Outcome, m: MappingInfo, p: nat) {
    r.Found?
    && r.pointer == (if m.ContainsAddress(p) then p else m.start)
    && r.pointer + r.length == m.End()
    && 0 < r.length <= m.size
  }

  /** Outcome r of a search that looked at pages up to k, starting from the page of sp. */
  predicate Locates(infos: seq<MappingInfo>, page: nat, sp: nat, r: Outcome, k: nat)
    requires page > 0
  {
    var base := PageOf(sp, page);
    var limit := Min(base + GUARD_SIZE, USIZE_MAX);
    var p := NthPage(base, page, k);
    p <= base + GUARD_SIZE + page && p <= USIZE_MAX
    && match r
       case Found(_, _) =>
         StopsAt(infos, base, page, limit, k)
         && FindMapping(infos, p).Some? && Reports(r, FindMapping(infos, p).value, p)
       case NoStackPointerMapping =>
         StopsAt(infos, base, page, limit, k) && p > limit && FindMapping(infos, p).None?
       case Overflow =>
         Passed(infos, base, page, limit, k + 1) && p + page > USIZE_MAX
  }

  method GetStackInfo(infos: seq<MappingInfo>, page: nat, sp: nat) returns (r: Outcome)
    requires page > 0 && sp <= USIZE_MAX
    ensures exists k: nat :: Locates(infos, page, sp, r, k)
  {
    var pointer := PageOf(sp, page);
    var mapping := FindMapping(infos, pointer);
    var guardMax := Min(pointer + GUARD_SIZE, USIZE_MAX);
    ghost var base, k := pointer, 0;
    while !MayBeStack(mapping) && pointer <= guardMax
      invariant pointer == NthPage(base, page, k) <= base + GUARD_SIZE + page && pointer <= USIZE_MAX
      invariant mapping == FindMapping(infos, pointer)
      invariant Passed(infos, base, page, guardMax, k)
      decreases guardMax + page - pointer
    {
      assert !StackAt(infos, base, page, k);
      assert Passed(infos, base, page, guardMax, k + 1);
      if pointer + page > USIZE_MAX {
        assert Locates(infos, page, sp, Overflow, k);
        return Overflow;
      }
      assert NthPage(base, page, k + 1) == pointer + page;
      pointer := pointer + page;
      k := k + 1;
      mapping := FindMapping(infos, pointer);
    }
    if mapping.None? {
      assert Locates(infos, page, sp, NoStackPointerMapping, k);
      return NoStackPointerMapping;
    }
    var m := mapping.value;
    var valid := if m.ContainsAddress(pointer) then pointer else m.start;
    r := Found(valid, m.size - (valid - m.start));
    assert Locates(infos, page, sp, r, k);
  }

  /** Of two multiples of the page size, the greater is a page or more ahead. */
  lemma {:induction false} PagesApart(a: nat, b: nat, page: nat)
    requires a * page < b * page
    ensures a * page + page <= b * page
  {
    assert a < b;
    assert (a + 1) * page <= b * page;
  }

  lemma {:induction false} PageNumber(sp: nat, page: nat, k: nat)
    requires page > 0
    ensures NthPage(PageOf(sp, page), page, k) == (sp / page + k) * page
  {
  }

  lemma {:induction false} EndsBeyond(sp: nat, page: nat, k: nat, end: nat)
    requires page > 0 && end % page == 0 && NthPage(PageOf(sp, page), page, k) < end
    ensures sp < end
  {
    PageNumber(sp, page, k);
    assert end == end / page * page;
    PagesApart(sp / page + k, end / page, page);
    assert sp / page * page <= (sp / page + k) * page;
  }

  /** When mappings end at page boundaries, the stack that is found reaches beyond the stack pointer. */
  lemma {:induction false} StackReachesPointer(infos: seq<MappingInfo>, page: nat, sp: nat, r: Outcome, k: nat)
    requires page > 0 && Locates(infos, page, sp, r, k) && r.Found?
    requires forall m :: m in infos ==> m.End() % page == 0
    ensures sp < r.pointer + r.length
  {
    var m := FindMapping(infos, NthPage(PageOf(sp, page), page, k)).value;
    EndsBeyond(sp, page, k, m.End());
  }

  // ---- The pages passed over, from the permissions of the table ----

  /** No mapping at the address, or one that can be neither read nor written. */
  ghost predicate NoAccess(infos: seq<MappingInfo>, a: nat) {
    (forall m :: m in infos ==> !(m.start <= a < m.start + m.size))
    || exists m :: m in infos && m.start <= a < m.start + m.size && ReadFlag !in m.perms && WriteFlag !in m.perms
  }

  /** Mapping m alone is at the address, and it can be read or written. */
  ghost predicate StackOnly(infos: seq<MappingInfo>, m: MappingInfo, a: nat) {
    m in infos && m.start <= a < m.start + m.size && (ReadFlag in m.perms || WriteFlag in m.perms)
    && forall m' :: m' in infos && m'.start <= a < m'.start + m'.size ==> m' == m
  }

  /** The page of sp is the multiple of the page size at or below it. */
  lemma {:induction false} PageIsMultiple(sp: nat, page: nat)
    requires page > 0
    ensures PageOf(sp, page) == sp / page * page
  {
  }

  /** Each page the search leaves behind gives no access and lies at most a megabyte above the first. */
  lemma {:induction false} SkippedHaveNoAccess(infos: seq<MappingInfo>, page: nat, sp: nat, r: Outcome, k: nat,
                                               j: nat)
    requires page > 0 && Locates(infos, page, sp, r, k) && j < k
    ensures NoAccess(infos, NthPage(PageOf(sp, page), page, j))
    ensures NthPage(PageOf(sp, page), page, j) <= PageOf(sp, page) + 1024 * 1024
  {
    assert !StackAt(infos, PageOf(sp, page), page, j);
  }

  /** No mapping that can be read or written is at the address. */
  ghost predicate NoStack(infos: seq<MappingInfo>, a: nat) {
    forall m :: m in infos && m.start <= a < m.start + m.size ==> ReadFlag !in m.perms && WriteFlag !in m.perms
  }

  lemma {:induction false} StopsAtStack(infos: seq<MappingInfo>, base: nat, page: nat, limit: nat, n: nat,
                                        m: MappingInfo)
    requires forall j :: 0 <= j < n ==> NoStack(infos, NthPage(base, page, j))
    requires n > 0 ==> NthPage(base, page, n - 1) <= limit
    requires StackOnly(infos, m, NthPage(base, page, n))
    ensures StopsAt(infos, base, page, limit, n) && FindMapping(infos, NthPage(base, page, n)) == Some(m)
  {
    forall j | 0 <= j < n ensures !StackAt(infos, base, page, j) && NthPage(base, page, j) <= limit {
      if j < n - 1 {
        PagesAscend(base, page, j, n - 1);
      }
    }
  }

  /**
   * The stack behind n pages without access, the last of them within a megabyte of the pointer's own
   * page, is found from its first page to its end; as a whole, if that page is not the kernel's.
   */
  lemma {:induction false} StackBehindGuard(infos: seq<MappingInfo>, page: nat, sp: nat, r: Outcome, k: nat, n: nat,
                                            m: MappingInfo)
    requires page > 0 && Locates(infos, page, sp, r, k)
    requires forall j :: 0 <= j < n ==> NoStack(infos, NthPage(PageOf(sp, page), page, j))
    requires n > 0 ==> NthPage(PageOf(sp, page), page, n - 1) <= PageOf(sp, page) + 1024 * 1024
    requires var p := NthPage(PageOf(sp, page), page, n); p <= USIZE_MAX && StackOnly(infos, m, p)
    ensures var p := NthPage(PageOf(sp, page), page, n);
            r == if m.sys.start <= p < m.sys.end then Found(p, m.start + m.size - p) else Found(m.start, m.size)
  {
    var base := PageOf(sp, page);
    if n > 0 {
      PagesAscend(base, page, n - 1, n);
      assert NthPage(base, page, n) == NthPage(base, page, n - 1) + page;
    }
    StopsAtStack(infos, base, page, Min(base + GUARD_SIZE, USIZE_MAX), n, m);
    var p := NthPage(base, page, n);
    var found := if m.ContainsAddress(p) then Found(p, m.End() - p) else Found(m.start, m.size);
    assert Locates(infos, page, sp, found, n);
    OneOutcome(infos, page, sp, r, k, found, n);
  }

  /** Nothing is found when nothing is mapped from the pointer's page to a megabyte and a page above it. */
  lemma {:induction false} NothingNearby(infos: seq<MappingInfo>, page: nat, sp: nat, r: Outcome, k: nat)
    requires page > 0 && Locates(infos, page, sp, r, k)
    requires PageOf(sp, page) + GUARD_SIZE + page <= USIZE_MAX
    requires forall m :: m in infos ==>
      m.start + m.size <= PageOf(sp, page) || PageOf(sp, page) + 1024 * 1024 + page < m.start
    ensures r == NoStackPointerMapping
  {
    HeadRoomSuffices(infos, page, sp, r, k);
    var p := NthPage(PageOf(sp, page), page, k);
    assert FindMapping(infos, p).None?;
  }

  // ---- One outcome, and when it is an overflow ----

  lemma {:induction false} PagesAscend(base: nat, page: nat, j: nat, k: nat)
    requires j < k
    ensures NthPage(base, page, j) + page <= NthPage(base, page, k)
  {
    assert (j + 1) * page <= k * page;
  }

  /** The search has one outcome. */
  lemma {:induction false} OneOutcome(infos: seq<MappingInfo>, page: nat, sp: nat, r: Outcome, k: nat, r': Outcome,
                                      k': nat)
    requires page > 0 && Locates(infos, page, sp, r, k) && Locates(infos, page, sp, r', k')
    ensures r == r' && k == k'
  {
    var base := PageOf(sp, page);
    if k < k' {
      PagesAscend(base, page, k, k');
    } else if k' < k {
      PagesAscend(base, page, k', k);
    }
  }

  /** The last page that starts below the top of the address space. */
  function TopPage(base: nat, page: nat): nat
    requires page > 0 && base <= USIZE_MAX
  {
    (USIZE_MAX - base) / page
  }

  lemma {:induction false} TopPageIsLast(base: nat, page: nat)
    requires page > 0 && base <= USIZE_MAX
    ensures NthPage(base, page, TopPage(base, page)) <= USIZE_MAX < NthPage(base, page, TopPage(base, page)) + page
  {
    var d := USIZE_MAX - base;
    assert d == d / page * page + d % page;
  }

  /**
   * The search overflows if and only if it passes over every page up to the top of the address
   * space: none may be a stack, and the last one still lies within the limit.
   */
  lemma {:induction false} OverflowIff(infos: seq<MappingInfo>, page: nat, sp: nat, r: Outcome, k: nat)
    requires page > 0 && sp <= USIZE_MAX && Locates(infos, page, sp, r, k)
    ensures var base := PageOf(sp, page);
            r.Overflow? <==> Passed(infos, base, page, Min(base + GUARD_SIZE, USIZE_MAX), TopPage(base, page) + 1)
  {
    var base := PageOf(sp, page);
    var top := TopPage(base, page);
    TopPageIsLast(base, page);
    if k < top {
      PagesAscend(base, page, k, top);
    } else if top < k {
      PagesAscend(base, page, top, k);
    }
  }

  /** With room for the guard and a page below the top of the address space there is no overflow. */
  lemma {:induction false} HeadRoomSuffices(infos: seq<MappingInfo>, page: nat, sp: nat, r: Outcome, k: nat)
    requires page > 0 && Locates(infos, page, sp, r, k)
    requires PageOf(sp, page) + GUARD_SIZE + page <= USIZE_MAX
    ensures !r.Overflow?
  {
  }

  /** Page s is looked at unless the search ends before it. */
  predicate InReach(base: nat, page: nat, limit: nat, s: nat) {
    forall j :: 0 <= j < s ==> NthPage(base, page, j) <= limit
  }

  /** The search ends on a possible stack exactly when there is one within reach of the pointer. */
  lemma {:induction false} EndsOnStackIff(infos: seq<MappingInfo>, base: nat, page: nat, limit: nat, k: nat)
    requires StopsAt(infos, base, page, limit, k)
    ensures StackAt(infos, base, page, k)
       <==> exists s: nat :: StackAt(infos, base, page, s) && InReach(base, page, limit, s)
  {
  }

  const GUARD := MappingInfo(0x101000, 0x1000, SystemRange(0x101000, 0x102000), 0, {PrivateFlag}, None)

  lemma {:induction false} GuardIsFound()
    ensures Locates([GUARD], 0x1000, 0x800, Found(0x101000, 0x1000), 0x101) && !MayBeStack(Some(GUARD))
  {
    forall j | 0 <= j < 0x101 ensures !StackAt([GUARD], 0, 0x1000, j) && NthPage(0, 0x1000, j) <= GUARD_SIZE {
      assert FindMapping([GUARD], NthPage(0, 0x1000, j)).None?;
    }
    assert FindMapping([GUARD], 0x101000) == Some(GUARD);
  }

  /**
   * The search does not promise a mapping that can be a stack: a module with no access at all
   * is reported when it is the first page beyond the limit.
   */
  lemma {:induction false} GuardBeyondLimitIsReported(r: Outcome, k: nat)
    requires Locates([GUARD], 0x1000, 0x800, r, k)
    ensures r == Found(0x101000, 0x1000) && !MayBeStack(Some(GUARD))
  {
    GuardIsFound();
    OneOutcome([GUARD], 0x1000, 0x800, r, k, Found(0x101000, 0x1000), 0x101);
  }

  /** A stack of one page. */
  const PAGE := MappingInfo(0, 0x1000, SystemRange(0, 0x1000), 0, {ReadFlag}, None)

  lemma {:induction false} PageIsFound()
    ensures Locates([PAGE], 0x1000, 3000, Found(0, 0x1000), 0)
  {
    assert FindMapping([PAGE], 0) == Some(PAGE);
    assert StackAt([PAGE], 0, 0x1000, 0);
  }
}
