/** How many frames it takes to map a list of pages: the tables that are missing on their paths, less those that
    2 MiB pages replace. */
module Plans {
  import opened Paging
  import opened PagingSteps

  /** One page to be mapped: a small one, or one of 2 MiB. */
  datatype PageStep = Small(at: Address) | Large(at: Address)

  ghost function Lacks(t: set<Pos>, p: Pos): nat { if p in t then 0 else 1 }

  /** The number of tables that have to be created for a page. */
  ghost function Missing(t: set<Pos>, s: PageStep): nat {
    Lacks(t, TablePos(s.at, 1)) + Lacks(t, TablePos(s.at, 2)) + if s.Small? then Lacks(t, TablePos(s.at, 3)) else 0
  }

  /** The tables there are once the missing ones were created from the root on, as far as `free` frames reach. */
  ghost function Made(t: set<Pos>, s: PageStep, free: int): set<Pos> {
    var n1 := Lacks(t, TablePos(s.at, 1));
    var n2 := n1 + Lacks(t, TablePos(s.at, 2));
    t + (if n1 <= free then {TablePos(s.at, 1)} else {}) + (if n2 <= free then {TablePos(s.at, 2)} else {})
      + (if s.Small? && Missing(t, s) <= free then {TablePos(s.at, 3)} else {})
  }

  /** The tables there are afterwards: a 2 MiB page replaces the table in its slot. */
  ghost function After(t: set<Pos>, s: PageStep): set<Pos> {
    var upper := t + {TablePos(s.at, 1), TablePos(s.at, 2)};
    if s.Small? then upper + {TablePos(s.at, 3)} else upper - {TablePos(s.at, 3)}
  }

  /** The number of frames taken less the number given back. */
  ghost function Cost(t: set<Pos>, s: PageStep): int {
    Missing(t, s) - if s.Large? && TablePos(s.at, 3) in t then 1 else 0
  }

  lemma SmallIsLargeAndMore(t: set<Pos>, at: Address)
    ensures var upper := t + {TablePos(at, 1), TablePos(at, 2)};
            && Missing(t, Small(at)) == Missing(t, Large(at)) + Lacks(upper, TablePos(at, 3))
            && After(t, Small(at)) == upper + {TablePos(at, 3)} && Cost(t, Small(at)) == Missing(t, Small(at))
  {
    TablePosAre(at);
  }

  lemma MadeUpperInSteps(t: set<Pos>, at: Address, free: nat)
    ensures free < Lacks(t, TablePos(at, 1)) ==> Made(t, Large(at), free) == t
    ensures Lacks(t, TablePos(at, 1)) <= free < Missing(t, Large(at)) ==>
              Made(t, Large(at), free) == t + {TablePos(at, 1)}
  {
    hide TablePos;
  }

  /** Creating all tables for a small page is creating the upper ones and then the last. */
  lemma MadeInSteps(t: set<Pos>, at: Address, free: int)
    ensures Missing(t, Large(at)) > free ==> Made(t, Small(at), free) == Made(t, Large(at), free)
    ensures Missing(t, Large(at)) <= free < Missing(t, Small(at)) ==>
              Made(t, Small(at), free) == t + {TablePos(at, 1), TablePos(at, 2)}
    ensures Missing(t, Small(at)) <= free ==> Made(t, Small(at), free) == After(t, Small(at))
  {
    hide TablePos;
  }

  // ----- one page after the other

  ghost function AfterAll(t: set<Pos>, plan: seq<PageStep>): set<Pos>
    decreases |plan|
  {
    if plan == [] then t else After(AfterAll(t, plan[..|plan| - 1]), plan[|plan| - 1])
  }

  ghost function CostAll(t: set<Pos>, plan: seq<PageStep>): int
    decreases |plan|
  {
    if plan == [] then 0
    else
      var before := plan[..|plan| - 1];
      CostAll(t, before) + Cost(AfterAll(t, before), plan[|plan| - 1])
  }

  /** Whether `free` frames are enough to map the pages of a plan one after the other. */
  ghost predicate Enough(t: set<Pos>, free: int, plan: seq<PageStep>)
    decreases |plan|
  {
    plan == [] ||
    var before := plan[..|plan| - 1];
    Enough(t, free, before) && Missing(AfterAll(t, before), plan[|plan| - 1]) <= free - CostAll(t, before)
  }

  /** One step further in a plan. */
  lemma PlanStep(t: set<Pos>, free: int, plan: seq<PageStep>, i: nat)
    requires i < |plan|
    ensures AfterAll(t, plan[..i + 1]) == After(AfterAll(t, plan[..i]), plan[i])
    ensures CostAll(t, plan[..i + 1]) == CostAll(t, plan[..i]) + Cost(AfterAll(t, plan[..i]), plan[i])
    ensures Enough(t, free, plan[..i + 1]) <==>
              Enough(t, free, plan[..i]) && Missing(AfterAll(t, plan[..i]), plan[i]) <= free - CostAll(t, plan[..i])
  {
    hide Missing, After, Cost;
    assert plan[..i + 1][..i] == plan[..i];
  }

  lemma PlanStart(t: set<Pos>, free: int, plan: seq<PageStep>)
    ensures AfterAll(t, plan[..0]) == t && CostAll(t, plan[..0]) == 0 && Enough(t, free, plan[..0])
  {
  }

  lemma EmptyPlan(t: set<Pos>, free: int)
    ensures AfterAll(t, []) == t && CostAll(t, []) == 0 && Enough(t, free, [])
  {
  }

  /** Frames that are enough for a plan are enough for every beginning of it. */
  lemma {:induction false} EnoughPrefix(t: set<Pos>, free: int, plan: seq<PageStep>, i: nat)
    requires Enough(t, free, plan) && i <= |plan|
    ensures Enough(t, free, plan[..i])
  {
    hide Missing, Cost;
    if i == |plan| {
      assert plan[..i] == plan;
    } else {
      EnoughPrefix(t, free, plan[..|plan| - 1], i);
      assert plan[..|plan| - 1][..i] == plan[..i];
    }
  }

  lemma {:induction false} PlanConcat(t: set<Pos>, free: int, xs: seq<PageStep>, ys: seq<PageStep>)
    ensures AfterAll(t, xs + ys) == AfterAll(AfterAll(t, xs), ys)
    ensures CostAll(t, xs + ys) == CostAll(t, xs) + CostAll(AfterAll(t, xs), ys)
    ensures Enough(t, free, xs + ys) <==>
              Enough(t, free, xs) && Enough(AfterAll(t, xs), free - CostAll(t, xs), ys)
  {
    hide Missing, After, Cost;
    if ys == [] {
      assert xs + ys == xs;
    } else {
      var n := |ys| - 1;
      PlanConcat(t, free, xs, ys[..n]);
      assert (xs + ys)[..|xs| + n] == xs + ys[..n];
    }
  }

  lemma CostIsNewTables(t: set<Pos>, s: PageStep)
    ensures Cost(t, s) == |After(t, s)| - |t|
  {
    hide TablePos;
    var p1, p2, p3 := TablePos(s.at, 1), TablePos(s.at, 2), TablePos(s.at, 3);
    assert Level(p1) == 1 && Level(p2) == 2 && Level(p3) == 3;
    JoinOne(t, p1);
    JoinOne(t + {p1}, p2);
    assert t + {p1} + {p2} == t + {p1, p2};
    match s
    case Small(_) => JoinOne(t + {p1, p2}, p3);
    case Large(_) =>
      assert p3 in t <==> p3 in t + {p1, p2};
      if p3 in t { assert (t + {p1, p2} - {p3}) + {p3} == t + {p1, p2}; }
      else { assert t + {p1, p2} - {p3} == t + {p1, p2}; }
  }

  lemma JoinOne(t: set<Pos>, p: Pos)
    ensures |t + {p}| == |t| + Lacks(t, p)
  {
    if p in t { assert t + {p} == t; }
  }

  /** The frames taken for a plan are exactly as many as there are tables more than before. */
  lemma {:induction false} CostIsAllNewTables(t: set<Pos>, plan: seq<PageStep>)
    ensures CostAll(t, plan) == |AfterAll(t, plan)| - |t|
  {
    hide After, Cost;
    if plan != [] {
      var before := plan[..|plan| - 1];
      CostIsAllNewTables(t, before);
      CostIsNewTables(AfterAll(t, before), plan[|plan| - 1]);
    }
  }
}
