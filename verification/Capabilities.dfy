/** Agreement on capabilities (libp2p/Host.cpp:263-337, Session.cpp:119-138,
    Capability.cpp:45-48): which ones a session uses, which packet ids each one
    gets, and that a packet reaches the capability that sent it. */
module Capabilities {
  datatype CapDesc = CapDesc(name: string, version: nat)

  // ----- Order of a std::map keyed by CapDesc -----

  predicate NameLess(a: string, b: string) {
    if b == "" then false
    else if a == "" then true
    else if a[0] != b[0] then a[0] < b[0]
    else NameLess(a[1..], b[1..])
  }

  predicate Less(a: CapDesc, b: CapDesc) {
    NameLess(a.name, b.name) || (a.name == b.name && a.version < b.version)
  }

  /** The order of names is that of their first difference, a proper prefix
      coming first. */
  lemma {:induction false} NameLessIs(a: string, b: string, n: nat)
    requires n <= |a| && n <= |b| && a[..n] == b[..n] && (n < |a| && n < |b| ==> a[n] != b[n])
    ensures NameLess(a, b) <==> n < |b| && (n < |a| ==> a[n] < b[n])
    decreases n
  {
    if n > 0 {
      assert a[0] == a[..n][0] == b[..n][0] == b[0];
      assert a[1..][..n - 1] == a[..n][1..] && b[1..][..n - 1] == b[..n][1..];
      NameLessIs(a[1..], b[1..], n - 1);
    }
  }

  lemma {:induction false} NameOrder(a: string, b: string)
    ensures NameLess(a, b) ==> a != b && !NameLess(b, a)
    ensures a != b ==> NameLess(a, b) || NameLess(b, a)
    decreases |a|
  {
    if a != "" && b != "" {
      NameOrder(a[1..], b[1..]);
      assert a == [a[0]] + a[1..] && b == [b[0]] + b[1..];
    }
  }

  ghost predicate InMapOrder(s: seq<CapDesc>) { forall i, j | 0 <= i < j < |s| :: Less(s[i], s[j]) }

  /** The keys of a host's capability map, as its Hello lists them. */
  ghost predicate Lists(s: seq<CapDesc>, have: set<CapDesc>) {
    InMapOrder(s) && forall c :: c in s <==> c in have
  }

  /** A set has one ascending listing. */
  lemma {:induction false} ListingUnique(s: seq<CapDesc>, t: seq<CapDesc>)
    requires InMapOrder(s) && InMapOrder(t) && forall c :: c in s <==> c in t
    ensures s == t
  {
    BothEmpty(s, t);
    BothEmpty(t, s);
    if s != [] {
      HeadIsLeast(s, t);
      HeadIsLeast(t, s);
      NameOrder(s[0].name, t[0].name);
      assert s[0] == t[0];
      forall c
        ensures c in s[1..] <==> c in t[1..]
      {
        TailMember(s, c);
        TailMember(t, c);
      }
      ListingUnique(s[1..], t[1..]);
      assert s == [s[0]] + s[1..] && t == [t[0]] + t[1..];
    }
  }

  lemma BothEmpty(s: seq<CapDesc>, t: seq<CapDesc>)
    requires forall c :: c in s <==> c in t
    ensures t != [] ==> s != []
  {
    if t != [] { assert t[0] in t; }
  }

  lemma HeadIsLeast(s: seq<CapDesc>, t: seq<CapDesc>)
    requires InMapOrder(t) && s != [] && t != [] && s[0] in t
    ensures t[0] == s[0] || Less(t[0], s[0])
  {
    var k :| 0 <= k < |t| && t[k] == s[0];
  }

  lemma TailMember(s: seq<CapDesc>, c: CapDesc)
    requires InMapOrder(s) && s != []
    ensures c in s[1..] <==> c in s && c != s[0]
  {
    if c in s[1..] {
      var k :| 1 <= k < |s| && s[k] == c;
      assert Less(s[0], s[k]);
      NameOrder(s[0].name, s[k].name);
    }
    if c in s && c != s[0] {
      var k :| 0 <= k < |s| && s[k] == c;
      assert s[1..][k - 1] == c;
    }
  }

  // ----- The filter -----

  /** Some listed capability of the same name is newer and supported here. */
  predicate Dominated(r: CapDesc, caps: seq<CapDesc>, have: set<CapDesc>) {
    exists o | o in caps :: o.name == r.name && o.version > r.version && o in have
  }

  /** The newest mutually supported version of its name. */
  predicate Keep(r: CapDesc, caps: seq<CapDesc>, have: set<CapDesc>) {
    r in have && !Dominated(r, caps, have)
  }

  function Kept(s: seq<CapDesc>, caps: seq<CapDesc>, have: set<CapDesc>): seq<CapDesc> {
    if s == [] then []
    else Kept(s[..|s| - 1], caps, have) + if Keep(s[|s| - 1], caps, have) then [s[|s| - 1]] else []
  }

  lemma {:induction false} KeptIn(s: seq<CapDesc>, caps: seq<CapDesc>, have: set<CapDesc>, c: CapDesc)
    ensures c in Kept(s, caps, have) <==> c in s && Keep(c, caps, have)
  {
    if s != [] {
      KeptIn(s[..|s| - 1], caps, have, c);
      assert s == s[..|s| - 1] + [s[|s| - 1]];
    }
  }

  lemma {:induction false} KeptAscends(s: seq<CapDesc>, caps: seq<CapDesc>, have: set<CapDesc>)
    requires InMapOrder(s)
    ensures InMapOrder(Kept(s, caps, have))
  {
    if s != [] {
      var front, last := s[..|s| - 1], s[|s| - 1];
      KeptAscends(front, caps, have);
      var k := Kept(front, caps, have);
      forall i | 0 <= i < |k|
        ensures Less(k[i], last)
      {
        KeptIn(front, caps, have, k[i]);
        var j :| 0 <= j < |front| && front[j] == k[i];
        assert Less(s[j], s[|s| - 1]);
      }
    }
  }

  /** What remains of an element that has been moved from. */
  function MovedFrom(c: CapDesc): CapDesc { CapDesc("", c.version) }

  /** Halfway through the removal: what was kept of the first i elements is in
      front, what has not been looked at is in place, and in between there are
      leftovers, some of them moved from. */
  ghost predicate Halfway(now: seq<CapDesc>, was: seq<CapDesc>, have: set<CapDesc>, result: nat, i: nat) {
    && |now| == |was| && result <= i <= |was|
    && now[..result] == Kept(was[..i], was, have)
    && now[i..] == was[i..]
    && (forall k | result <= k < i :: now[k] == if Keep(was[k], was, have) then MovedFrom(was[k]) else was[k])
  }

  ghost function Newer(was: seq<CapDesc>, v: nat): set<CapDesc> { set c | c in was && c.version > v }

  /** The newest supported version of a name: it is dominated by nothing. */
  lemma Newest(was: seq<CapDesc>, have: set<CapDesc>, k: nat) returns (m: nat)
    requires k < |was| && was[k] in have
    ensures m < |was| && was[m].name == was[k].name && was[m].version >= was[k].version && Keep(was[m], was, have)
    decreases Newer(was, was[k].version)
  {
    if Dominated(was[k], was, have) {
      var o :| o in was && o.name == was[k].name && o.version > was[k].version && o in have;
      var j :| 0 <= j < |was| && was[j] == o;
      assert o in Newer(was, was[k].version) && o !in Newer(was, o.version);
      assert Newer(was, o.version) <= Newer(was, was[k].version);
      m := Newest(was, have, j);
    } else {
      m := k;
    }
  }

  /** At element i, an element moved away earlier passes for a newer version of
      a capability without a name. */
  ghost predicate TripsAt(was: seq<CapDesc>, have: set<CapDesc>, i: nat)
    requires i < |was|
  {
    && was[i].name == "" && Keep(was[i], was, have)
    && exists j | |Kept(was[..i], was, have)| <= j < i ::
         Keep(was[j], was, have) && was[j].version > was[i].version && MovedFrom(was[j]) in have
  }

  ghost predicate Trips(was: seq<CapDesc>, have: set<CapDesc>) { exists i | 0 <= i < |was| :: TripsAt(was, have, i) }

  /** It never does for a host whose capabilities have names. */
  lemma NamedNeverTrips(was: seq<CapDesc>, have: set<CapDesc>)
    requires forall v: nat :: CapDesc("", v) !in have
    ensures !Trips(was, have)
  {
  }

  /** Where an element of the untouched list is found in the middle of the
      removal: in front if it was kept, else in its place. */
  lemma StillThere(now: seq<CapDesc>, was: seq<CapDesc>, have: set<CapDesc>, result: nat, i: nat, m: nat)
    requires Halfway(now, was, have, result, i) && m < |was| && Keep(was[m], was, have)
    ensures was[m] in now
  {
    hide Keep;
    if m < i {
      assert was[m] == was[..i][m];
      KeptIn(was[..i], was, have, was[m]);
      assert was[m] in now[..result];
    } else {
      assert now[m] == now[i..][m - i] == was[i..][m - i] == was[m];
    }
  }

  /** An element found there is one of the untouched list, or moved from. */
  lemma FoundThere(now: seq<CapDesc>, was: seq<CapDesc>, have: set<CapDesc>, result: nat, i: nat, k: nat)
    requires Halfway(now, was, have, result, i) && k < |now|
    ensures now[k] in was || (result <= k < i && Keep(was[k], was, have) && now[k] == MovedFrom(was[k]))
  {
    hide Keep;
    if k < result {
      assert now[k] == now[..result][k];
      KeptIn(was[..i], was, have, now[k]);
    } else if k >= i {
      assert now[k] == now[i..][k - i] == was[i..][k - i] == was[k];
    }
  }

  /** The removal looks at a list it is in the middle of changing.  What it
      sees there decides as the whole list would, unless it trips: an element
      that matters is either in front already or still in its place. */
  lemma SeesTheSame(now: seq<CapDesc>, was: seq<CapDesc>, have: set<CapDesc>, result: nat, i: nat)
    requires Halfway(now, was, have, result, i) && i < |was|
    ensures Keep(was[i], now, have) <==> Keep(was[i], was, have) && !TripsAt(was, have, i)
  {
    if Dominated(was[i], was, have) { DominatedStill(now, was, have, result, i); }
    else if Dominated(was[i], now, have) { DominatedTrips(now, was, have, result, i); }
    if TripsAt(was, have, i) { TripsDominates(now, was, have, result, i); }
    hide Dominated, TripsAt, Halfway;
  }

  lemma DominatedStill(now: seq<CapDesc>, was: seq<CapDesc>, have: set<CapDesc>, result: nat, i: nat)
    requires Halfway(now, was, have, result, i) && i < |was| && Dominated(was[i], was, have)
    ensures Dominated(was[i], now, have)
  {
    var o :| o in was && o.name == was[i].name && o.version > was[i].version && o in have;
    var k :| 0 <= k < |was| && was[k] == o;
    hide Halfway;
    var m := Newest(was, have, k);
    StillThere(now, was, have, result, i, m);
  }

  lemma DominatedTrips(now: seq<CapDesc>, was: seq<CapDesc>, have: set<CapDesc>, result: nat, i: nat)
    requires Halfway(now, was, have, result, i) && i < |was|
    requires Dominated(was[i], now, have) && !Dominated(was[i], was, have)
    ensures Keep(was[i], was, have) ==> TripsAt(was, have, i)
  {
    var o :| o in now && o.name == was[i].name && o.version > was[i].version && o in have;
    var k :| 0 <= k < |now| && now[k] == o;
    FoundThere(now, was, have, result, i, k);
    assert |now[..result]| == result;
  }

  lemma TripsDominates(now: seq<CapDesc>, was: seq<CapDesc>, have: set<CapDesc>, result: nat, i: nat)
    requires Halfway(now, was, have, result, i) && i < |was| && TripsAt(was, have, i)
    ensures Dominated(was[i], now, have)
  {
    assert |now[..result]| == result;
    var j :| result <= j < i && Keep(was[j], was, have) && was[j].version > was[i].version && MovedFrom(was[j]) in have;
    assert now[j] == MovedFrom(was[j]);
  }

  /** What is in front already cannot be the filter's result any more. */
  ghost predicate Spoilt(front: seq<CapDesc>, was: seq<CapDesc>, have: set<CapDesc>, i: nat)
    requires i <= |was|
  {
    |front| < |Kept(was[..i], was, have)| || exists c | c in front :: !Keep(c, was, have)
  }

  lemma SpoiltIsNotKept(front: seq<CapDesc>, was: seq<CapDesc>, have: set<CapDesc>)
    requires Spoilt(front, was, have, |was|)
    ensures front != Kept(was, was, have)
  {
    assert was[..|was|] == was;
    forall c | c in Kept(was, was, have)
      ensures Keep(c, was, have)
    {
      KeptIn(was, was, have, c);
    }
  }

  lemma StaysSpoilt(front: seq<CapDesc>, was: seq<CapDesc>, have: set<CapDesc>, i: nat, taken: bool)
    requires i < |was| && Spoilt(front, was, have, i)
    ensures Spoilt(if taken then front + [was[i]] else front, was, have, i + 1)
  {
    assert was[..i + 1][..i] == was[..i];
    if c :| c in front && !Keep(c, was, have) { assert c in front + [was[i]]; }
    if !Keep(was[i], was, have) { assert was[i] in front + [was[i]]; }
  }

  /** caps.erase(remove_if(...)): in place, whatever the order of the list.  It
      filters as it should exactly when it does not trip over an element that
      it has moved away. */
  method LeaveHighest(caps: seq<CapDesc>, have: set<CapDesc>) returns (kept: seq<CapDesc>)
    ensures kept == Kept(caps, caps, have) <==> !Trips(caps, have)
  {
    hide Halfway, Spoilt, TripsAt;
    var now := caps;
    var result, i := 0, 0;
    ghost var tripped := false;
    AtTheStart(caps, have);
    while i < |caps|
      invariant result <= i <= |now| == |caps| && now[i..] == caps[i..]
      invariant tripped ==> Trips(caps, have) && Spoilt(now[..result], caps, have, i)
      invariant !tripped ==> Halfway(now, caps, have, result, i)
      invariant !tripped ==> forall k | 0 <= k < i :: !TripsAt(caps, have, k)
    {
      assert now[i] == now[i..][0] == caps[i];
      var keep := Keep(now[i], now, have);
      ghost var before := now;
      if keep {
        if result < i {
          now := now[result := now[i]];
          now := now[i := MovedFrom(now[i])];
        }
        result := result + 1;
      }
      ghost var trips := tripped || TripsAt(caps, have, i);
      OneFurther(before, now, caps, have, if keep then result - 1 else result, i, tripped, trips, keep);
      tripped := trips;
      i := i + 1;
    }
    if tripped { SpoiltIsNotKept(now[..result], caps, have); } else { AtTheEnd(now, caps, have, result); }
    kept := now[..result];
  }

  lemma AtTheStart(was: seq<CapDesc>, have: set<CapDesc>)
    ensures Halfway(was, was, have, 0, 0)
  {
  }

  lemma AtTheEnd(now: seq<CapDesc>, was: seq<CapDesc>, have: set<CapDesc>, result: nat)
    requires Halfway(now, was, have, result, |was|)
    ensures now[..result] == Kept(was, was, have)
  {
    assert was[..|was|] == was;
  }

  /** One round of remove_if, from `before` to `now`. */
  lemma OneFurther(before: seq<CapDesc>, now: seq<CapDesc>, was: seq<CapDesc>, have: set<CapDesc>,
                   result: nat, i: nat, tripped: bool, trips: bool, keep: bool)
    requires result <= i < |before| == |was| && before[i..] == was[i..] && keep == Keep(was[i], before, have)
    requires now == if !keep then before
                    else if result < i then before[result := was[i]][i := MovedFrom(was[i])] else before
    requires tripped ==> Spoilt(before[..result], was, have, i)
    requires !tripped ==> Halfway(before, was, have, result, i)
    requires trips == (tripped || TripsAt(was, have, i))
    ensures now[i + 1..] == was[i + 1..]
    ensures var after := if keep then result + 1 else result;
      if trips then Spoilt(now[..after], was, have, i + 1) else Halfway(now, was, have, after, i + 1)
  {
    assert was[..i + 1][..i] == was[..i] && was[i] == was[i..][0] == before[i];
    assert before[i..][1..] == was[i..][1..];
    assert now[i + 1..] == before[i + 1..];
    if keep { assert now[..result + 1] == before[..result] + [was[i]]; }
    if tripped { StaysSpoilt(before[..result], was, have, i, keep); }
    else { SeesTheSame(before, was, have, result, i); }
    hide Dominated;
  }

  /** A list and a host on which it trips: version 1 of the nameless capability
      goes, though no newer one is in the list. */
  lemma TrippingList()
    ensures var have := {CapDesc("a", 2), CapDesc("", 2), CapDesc("", 1)};
      Trips([CapDesc("b", 0), CapDesc("a", 2), CapDesc("", 1)], have)
  {
    var have := {CapDesc("a", 2), CapDesc("", 2), CapDesc("", 1)};
    var was := [CapDesc("b", 0), CapDesc("a", 2), CapDesc("", 1)];
    assert was[..2] == [CapDesc("b", 0), CapDesc("a", 2)] && was[..2][..1] == [CapDesc("b", 0)];
    assert Kept(was[..2], was, have) == Kept([CapDesc("b", 0)], was, have) + [CapDesc("a", 2)];
    assert TripsAt(was, have, 2);
  }

  /** Two honest hosts, each filtering the other's list by its own map, arrive
      at the same list: the newest common version of every common name. */
  lemma BothEndsAgree(a: set<CapDesc>, b: set<CapDesc>, listA: seq<CapDesc>, listB: seq<CapDesc>)
    requires Lists(listA, a) && Lists(listB, b)
    ensures Kept(listB, listB, a) == Kept(listA, listA, b)
    ensures forall c :: c in Kept(listB, listB, a) <==>
              && c in a && c in b
              && (forall d | d in a && d in b && d.name == c.name :: d.version <= c.version)
  {
    forall c
      ensures c in Kept(listB, listB, a) <==> NewestCommon(c, a, b)
      ensures c in Kept(listA, listA, b) <==> NewestCommon(c, a, b)
    {
      KeptIn(listB, listB, a, c);
      KeptIn(listA, listA, b, c);
      DominatedByCommon(c, a, b, listB);
      DominatedByCommon(c, b, a, listA);
    }
    KeptAscends(listB, listB, a);
    KeptAscends(listA, listA, b);
    ListingUnique(Kept(listB, listB, a), Kept(listA, listA, b));
  }

  ghost predicate NewestCommon(c: CapDesc, a: set<CapDesc>, b: set<CapDesc>) {
    && c in a && c in b
    && (forall d | d in a && d in b && d.name == c.name :: d.version <= c.version)
  }

  lemma DominatedByCommon(c: CapDesc, have: set<CapDesc>, theirs: set<CapDesc>, list: seq<CapDesc>)
    requires Lists(list, theirs)
    ensures Dominated(c, list, have) <==>
              exists d | d in have && d in theirs :: d.name == c.name && d.version > c.version
  {
    if d: CapDesc :| d in have && d in theirs && d.name == c.name && d.version > c.version {
      assert d in list;
    }
  }

  // ----- Packet ids -----

  const USER_PACKET := 0x10

  /** A capability of a session: where its packet ids start, how many it has. */
  datatype Slot = Slot(cap: CapDesc, idOffset: nat, messageCount: nat)

  /** Ids are handed out in the order of the list, one block after the other;
      `count` is the number of messages of a capability. */
  function Slots(caps: seq<CapDesc>, count: CapDesc -> nat, offset: nat): (s: seq<Slot>)
    ensures |s| == |caps|
  {
    if caps == [] then []
    else [Slot(caps[0], offset, count(caps[0]))] + Slots(caps[1..], count, offset + count(caps[0]))
  }

  /** The loop of startPeerSession that hands out the ids. */
  method AssignOffsets(caps: seq<CapDesc>, count: CapDesc -> nat) returns (slots: seq<Slot>)
    ensures slots == Slots(caps, count, USER_PACKET)
    ensures InBlocks(slots, caps, count)
  {
    hide InBlocks;
    SlotsInBlocks(caps, count);
    slots := [];
    var offset: nat := USER_PACKET;
    for i := 0 to |caps|
      invariant slots + Slots(caps[i..], count, offset) == Slots(caps, count, USER_PACKET)
    {
      assert caps[i..][1..] == caps[i + 1..];
      assert slots + Slots(caps[i..], count, offset)
          == slots + [Slot(caps[i], offset, count(caps[i]))] + Slots(caps[i + 1..], count, offset + count(caps[i]));
      slots := slots + [Slot(caps[i], offset, count(caps[i]))];
      offset := offset + count(caps[i]);
    }
  }

  predicate Serves(s: Slot, id: nat) { s.idOffset <= id < s.idOffset + s.messageCount }

  lemma {:induction false} SlotsFrom(caps: seq<CapDesc>, count: CapDesc -> nat, offset: nat, k: nat)
    requires k < |caps|
    ensures var s := Slots(caps, count, offset)[k];
      s.cap == caps[k] && s.idOffset >= offset && s.messageCount == count(caps[k])
    decreases k
  {
    if k > 0 { SlotsFrom(caps[1..], count, offset + count(caps[0]), k - 1); }
  }

  /** Where one capability's ids end, the next one's begin. */
  lemma {:induction false} SlotsAdjoin(caps: seq<CapDesc>, count: CapDesc -> nat, offset: nat, k: nat)
    requires k + 1 < |caps|
    ensures var s := Slots(caps, count, offset); s[k + 1].idOffset == s[k].idOffset + s[k].messageCount
    decreases k
  {
    if k > 0 { SlotsAdjoin(caps[1..], count, offset + count(caps[0]), k - 1); }
  }

  /** One block of ids for each capability, as long as it has messages: the
      first starts at 0x10, each other one where the one before it ends. */
  ghost predicate InBlocks(slots: seq<Slot>, caps: seq<CapDesc>, count: CapDesc -> nat) {
    && |slots| == |caps| && (caps != [] ==> slots[0].idOffset == 0x10)
    && (forall k | 0 <= k < |caps| :: slots[k].cap == caps[k] && slots[k].messageCount == count(caps[k]))
    && (forall k, j | 0 <= k && j == k + 1 < |caps| ::
          slots[j].idOffset == slots[k].idOffset + slots[k].messageCount)
  }

  lemma SlotsInBlocks(caps: seq<CapDesc>, count: CapDesc -> nat)
    ensures InBlocks(Slots(caps, count, USER_PACKET), caps, count)
  {
    var s := Slots(caps, count, USER_PACKET);
    assert caps != [] ==> s[0].idOffset == 0x10;
    hide Slots;
    forall k | 0 <= k < |caps|
      ensures s[k].cap == caps[k] && s[k].messageCount == count(caps[k])
    {
      SlotsFrom(caps, count, USER_PACKET, k);
    }
    forall k, j | 0 <= k && j == k + 1 < |caps|
      ensures s[j].idOffset == s[k].idOffset + s[k].messageCount
    {
      SlotsAdjoin(caps, count, USER_PACKET, k);
    }
  }

  /** No id belongs to two capabilities. */
  lemma {:induction false} SlotsDisjoint(
      caps: seq<CapDesc>, count: CapDesc -> nat, offset: nat, j: nat, k: nat, id: nat)
    requires j < k < |caps|
    ensures var s := Slots(caps, count, offset); !(Serves(s[j], id) && Serves(s[k], id))
    decreases j
  {
    if j == 0 {
      SlotsFrom(caps[1..], count, offset + count(caps[0]), k - 1);
    } else {
      SlotsDisjoint(caps[1..], count, offset + count(caps[0]), j - 1, k - 1, id);
    }
  }

  /** readPacket's search: the capability and its own packet id, or None. */
  datatype Target = Core(id: nat) | ToCapability(cap: CapDesc, id: nat) | Nobody

  method ReadPacket(slots: seq<Slot>, protocolId: nat, id: nat) returns (t: Target)
    ensures protocolId == 0 && id < USER_PACKET ==> t == Core(id)
    ensures !(protocolId == 0 && id < USER_PACKET) ==>
      match t
      case Core(_) => false
      case Nobody => forall k | 0 <= k < |slots| :: !Serves(slots[k], id)
      case ToCapability(c, i) =>
        exists k | 0 <= k < |slots| :: Serves(slots[k], id) && c == slots[k].cap && i == id - slots[k].idOffset
  {
    if protocolId == 0 && id < USER_PACKET { return Core(id); }
    for k := 0 to |slots|
      invariant forall j | 0 <= j < k :: !Serves(slots[j], id)
    {
      if Serves(slots[k], id) { return ToCapability(slots[k].cap, id - slots[k].idOffset); }
    }
    return Nobody;
  }

  /** prep: the packet id as one byte. */
  function Prep(s: Slot, id: nat): nat { (id + s.idOffset) % 256 }

  /** What one end prepares for a capability, the other end hands to the same
      capability under the same id, as long as the id fits its one byte. */
  method SendAndRead(caps: seq<CapDesc>, count: CapDesc -> nat, k: nat, id: nat) returns (t: Target)
    requires k < |caps| && id < count(caps[k])
    ensures Slots(caps, count, USER_PACKET)[k].idOffset + id <= 0xff ==> t == ToCapability(caps[k], id)
  {
    var mine := AssignOffsets(caps, count);
    var theirs := AssignOffsets(caps, count);
    SlotsFrom(caps, count, USER_PACKET, k);
    var byte := Prep(mine[k], id);
    t := ReadPacket(theirs, 0, byte);
    if mine[k].idOffset + id > 0xff { return; }
    assert Serves(theirs[k], byte);
    forall j: nat | j < |caps| && j != k
      ensures !Serves(theirs[j], byte)
    {
      if j < k { SlotsDisjoint(caps, count, USER_PACKET, j, k, byte); }
      else { SlotsDisjoint(caps, count, USER_PACKET, k, j, byte); }
    }
  }
}
