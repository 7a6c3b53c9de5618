/** critnib_get under concurrency: what a reader knows at each load, why writer steps keep it
    and why its own steps keep it. */
module CritnibReaders {
  import opened Digits
  import opened RadixTree
  import opened CritnibModel
  import opened CritnibInv

  function Lookup(m: map<Key, Word>, k: Key): Word {
    if k in m then m[k] else Nil
  }

  /** res was the lookup of the key at an instant from `start` to `end`. */
  ghost predicate Answer(hist: seq<map<Key, Word>>, key: Key, start: nat, end: nat, res: Word) {
    exists j :: start <= j <= end < |hist| && res == Lookup(hist[j], key)
  }

  /** The key was absent at an instant since `start`. */
  ghost predicate Missed(hist: seq<map<Key, Word>>, key: Key, start: nat) {
    exists j :: start <= j < |hist| && key !in hist[j]
  }

  /** Linked, or unlinked and not yet recycled. */
  predicate Kept(b: Book, p: Ptr) {
    p in b.up || p in b.limbo
  }

  // ---------------------------------------------------------------------------------------
  // What a reader knows

  /** Fewer than 16 removes began since the snapshot. */
  predicate Timely(s: Sys, q: Query) {
    s.st.count < q.w + LIFE
  }

  /** The attempt began in the past, and what was unlinked since then was unlinked by the remove
      under way at the snapshot or a later one. */
  ghost predicate Attempt(s: Sys, q: Query) {
    && q.call <= q.start < |s.hist| && q.w <= s.st.count
    && forall p :: p in s.b.limbo && q.start <= s.b.limbo[p].dead ==> q.w <= s.b.limbo[p].rem + 1
  }

  /** p was linked at some instant since the snapshot. */
  predicate Seen(b: Book, start: nat, p: Ptr) {
    p in b.up || (p in b.limbo && start <= b.limbo[p].dead)
  }

  /** The pointer is NULL or a correctly tagged pointer to an object of the structure, and not to
      a node that is still being filled in. */
  predicate Sound(s: Sys, p: Ptr) {
    Alloc(s.st.mem, p) && (Raw(s.w) != Null ==> p != Raw(s.w))
  }

  /** From p the dive still finds the key, unless the key was absent in the meantime. */
  ghost predicate Way(s: Sys, q: Query, p: Ptr) {
    || Missed(s.hist, q.key, q.start)
    || (q.key in s.b.at && Alloc(s.st.mem, p) && Leads(s.st.mem, p, q.key, Tagged(s.b.at[q.key])))
  }

  ghost predicate Holds(s: Sys, q: Query, p: Ptr, hops: nat) {
    && (p == Null || Seen(s.b, q.start, p))
    && Way(s, q, p)
    && (p.Inner? && p.id in s.st.mem.nodes ==> hops + s.st.mem.nodes[p.id].sh < 16)
    && hops <= 16
  }

  ghost predicate ReaderOk(s: Sys, r: Reader) {
    match r
    case Begin(_, call) => call < |s.hist|
    case AtRoot(q) => Attempt(s, q)
    case AtPtr(q, cur, hops) => Attempt(s, q) && Sound(s, cur) && (Timely(s, q) ==> Holds(s, q, cur, hops))
    case AtSlot(q, cur, hops, sh) =>
      && Attempt(s, q) && Sound(s, cur) && cur.Inner? && sh < 16
      && (Timely(s, q) ==> Holds(s, q, cur, hops) && s.st.mem.nodes[cur.id].sh == sh)
    case AtValue(q, cur) =>
      && Attempt(s, q) && Sound(s, cur) && cur.Tagged?
      && (Timely(s, q) ==> Seen(s.b, q.start, cur) && s.st.mem.leaves[cur.id].key == q.key)
    case AtCheck(q, res) => Attempt(s, q) && (Timely(s, q) ==> Answer(s.hist, q.key, q.start, |s.hist| - 1, res))
    case Done(q, end, res) => q.call <= q.start && end < |s.hist| && Answer(s.hist, q.key, q.start, end, res)
  }

  // ---------------------------------------------------------------------------------------
  // What a writer step means to readers

  /** For an object of the tree or the rings: it stays as it is, or it is recycled because sixteen
      removes have begun since the one that unlinked it. */
  ghost predicate Fate(s: Sys, s': Sys, p: Ptr) {
    var mem, mem' := s.st.mem, s'.st.mem;
    || (&& Kept(s'.b, p) && Alloc(mem, p) && Alloc(mem', p)
        && (p in s.b.limbo ==> p in s'.b.limbo && s'.b.limbo[p] == s.b.limbo[p])
        && (p in s.b.up && p !in s'.b.up ==> p in s'.b.limbo && s'.b.limbo[p].dead + 1 == |s.hist|)
        && (p.Tagged? ==> mem'.leaves[p.id] == mem.leaves[p.id])
        && (p.Inner? ==> mem'.nodes[p.id] == mem.nodes[p.id].(child := mem'.nodes[p.id].child)
                         && |mem'.nodes[p.id].child| == |mem.nodes[p.id].child|))
    || (p !in s.b.up && p in s.b.limbo && s.b.limbo[p].rem + LIFE < s'.st.count)
  }

  /** The step of the dive for k at node n, if it led to t, still does: directly, through a node
      spliced in, or past a node cut out. */
  ghost predicate NextOk(mem: Mem, mem': Mem, n: nat, k: Key, t: Ptr)
    requires n in mem.nodes && n in mem'.nodes
  {
    var nd, nd' := mem.nodes[n], mem'.nodes[n];
    nd.sh < |k| && 0 <= k[nd.sh] < |nd.child| && k[nd.sh] < |nd'.child| ==>
      var c, c' := nd.child[k[nd.sh]], nd'.child[k[nd.sh]];
      Alloc(mem, c) && Leads(mem, c, k, t) ==>
        || c' == c
        || (c'.Inner? && c'.id in mem'.nodes &&
            var f := mem'.nodes[c'.id];
            f.sh < nd.sh && 0 <= k[f.sh] < |f.child| && f.child[k[f.sh]] == c && Rank(mem, c) <= f.sh)
        || (c.Inner? && c != t && c' == mem.nodes[c.id].child[k[mem.nodes[c.id].sh]])
  }

  /** History, counter, index and memory only move forward. */
  ghost predicate Forward(s: Sys, s': Sys) {
    && s'.readers == s.readers
    && s.hist != [] && |s'.hist| == |s.hist| + 1 && s'.hist[..|s.hist|] == s.hist
    && s.st.count <= s'.st.count
    && (forall k :: k in s.b.at && k in s'.b.at ==> s'.b.at[k] == s.b.at[k])
    && (s'.b.peak == s.b.peak || s'.b.peak == |s'.b.at|)
    && s.st.mem.nodes.Keys <= s'.st.mem.nodes.Keys && s.st.mem.leaves.Keys <= s'.st.mem.leaves.Keys
    && (Raw(s'.w) != Null && Raw(s'.w) != Raw(s.w) ==> !Alloc(s.st.mem, Raw(s'.w)))
    && (Raw(s.w) != Null ==> Alloc(s.st.mem, Raw(s.w)))
  }

  ghost predicate Fates(s: Sys, s': Sys) {
    && (forall p {:trigger Fate(s, s', p)} :: Kept(s.b, p) ==> Fate(s, s', p))
    && (forall p :: p in s'.b.limbo && p !in s.b.limbo ==>
          s'.b.limbo[p].rem + 1 == s'.st.count && s'.b.limbo[p].dead + 1 == |s.hist|)
    && (forall p :: p in s'.b.limbo && p in s.b.limbo ==> s'.b.limbo[p] == s.b.limbo[p])
  }

  ghost predicate Steers(s: Sys, s': Sys) {
    forall k, n {:trigger NextOk(s.st.mem, s'.st.mem, n, k, Tagged(s.b.at[k]))} ::
      (&& k in s.b.at && k in s'.b.at && Kept(s.b, Inner(n)) && Kept(s'.b, Inner(n))
       && n in s.st.mem.nodes && n in s'.st.mem.nodes) ==>
        NextOk(s.st.mem, s'.st.mem, n, k, Tagged(s.b.at[k]))
  }

  ghost predicate Calm(s: Sys, s': Sys) {
    Forward(s, s') && Fates(s, s') && Steers(s, s')
  }

  // ---------------------------------------------------------------------------------------
  // Writer steps keep what readers know

  lemma MissedStays(hist: seq<map<Key, Word>>, hist': seq<map<Key, Word>>, key: Key, start: nat)
    requires Missed(hist, key, start) && |hist| <= |hist'| && hist'[..|hist|] == hist
    ensures Missed(hist', key, start)
  {
    var j :| start <= j < |hist| && key !in hist[j];
    assert hist'[j] == hist[j];
  }

  lemma AnswerStays(hist: seq<map<Key, Word>>, hist': seq<map<Key, Word>>, key: Key, start: nat, end: nat, end': nat,
                    res: Word)
    requires Answer(hist, key, start, end, res) && |hist| <= |hist'| && hist'[..|hist|] == hist
    requires end <= end' < |hist'|
    ensures Answer(hist', key, start, end', res)
  {
    var j :| start <= j <= end < |hist| && res == Lookup(hist[j], key);
    assert hist'[j] == hist[j];
  }

  /** Children of what was linked since `start` were linked since `start`. */
  lemma SeenChild(s: Sys, start: nat, n: nat, i: nat)
    requires Core(s) && Seen(s.b, start, Inner(n)) && i < 16
    ensures n in s.st.mem.nodes && GoodNode(SZ, s.st.mem.nodes[n])
    ensures var c := s.st.mem.nodes[n].child[i];
            c != Null ==> Seen(s.b, start, c) && Fits(s.st.mem, c, s.st.mem.nodes[n], i)
  {
    if Inner(n) in s.b.up {
      assert ObjOk(SZ, s.st.mem, s.b.up, Inner(n));
      assert SlotOk(s.st.mem, s.b.up, n, i);
    } else {
      assert LimboNode(s.st.mem, s.b, n);
      assert LimboSlot(s.st.mem, s.b, n, i);
    }
  }

  /** What a timely reader may hold is not recycled by the step. */
  lemma SeenStays(s: Sys, s': Sys, q: Query, p: Ptr)
    requires Calm(s, s') && Attempt(s, q) && Timely(s', q) && Seen(s.b, q.start, p)
    ensures Fate(s, s', p) && Kept(s'.b, p) && Alloc(s.st.mem, p) && Alloc(s'.st.mem, p)
    ensures Seen(s'.b, q.start, p)
    ensures p.Tagged? ==> s'.st.mem.leaves[p.id] == s.st.mem.leaves[p.id]
    ensures p.Inner? ==> s'.st.mem.nodes[p.id] == s.st.mem.nodes[p.id].(child := s'.st.mem.nodes[p.id].child)
                         && |s'.st.mem.nodes[p.id].child| == |s.st.mem.nodes[p.id].child|
  {
    assert Fate(s, s', p);
  }

  /** One dive step in the new memory, from what the new memory leads to one or two steps on. */
  lemma LeadsNext(mem: Mem, mem': Mem, n: nat, k: Key, t: Ptr, d: Ptr)
    requires n in mem.nodes && n in mem'.nodes && NextOk(mem, mem', n, k, t)
    requires mem'.nodes[n].sh == mem.nodes[n].sh && |mem'.nodes[n].child| == |mem.nodes[n].child|
    requires Inner(n) != t && Leads(mem, Inner(n), k, t)
    requires var c := mem.nodes[n].child[k[mem.nodes[n].sh]];
             && Alloc(mem', c) && Rank(mem', c) == Rank(mem, c) && Leads(mem', c, k, t)
             && (c.Inner? && c != t ==>
                   && Alloc(mem, d) && Alloc(mem', d) && Rank(mem', d) == Rank(mem, d) && Leads(mem', d, k, t)
                   && var nc := mem.nodes[c.id]; 
                   nc.sh < |k| && 0 <= k[nc.sh] < |nc.child| && d == nc.child[k[nc.sh]] && Rank(mem, d) <= nc.sh)
    ensures Leads(mem', Inner(n), k, t)
  {
    var nd' := mem'.nodes[n];
    var c' := nd'.child[k[nd'.sh]];
    assert Alloc(mem', c') && Rank(mem', c') <= nd'.sh && Leads(mem', c', k, t);
  }

  lemma {:induction false} LeadsStays(s: Sys, s': Sys, q: Query, p: Ptr)
    requires Core(s) && Calm(s, s') && Attempt(s, q) && Timely(s', q) && Seen(s.b, q.start, p)
    requires q.key in s.b.at && q.key in s'.b.at
    requires Alloc(s.st.mem, p) && Alloc(s'.st.mem, p) && Leads(s.st.mem, p, q.key, Tagged(s.b.at[q.key]))
    ensures Leads(s'.st.mem, p, q.key, Tagged(s.b.at[q.key]))
    decreases Rank(s.st.mem, p)
  {
    hide Core;
    if p.Inner? {
      SeenStays(s, s', q, p);
      var c := NextSeen(s, s', q, p.id);
      LeadsStays(s, s', q, c);
      var d := c;
      if c.Inner? {
        d := NextSeen(s, s', q, c.id);
        LeadsStays(s, s', q, d);
      }
      assert NextOk(s.st.mem, s'.st.mem, p.id, q.key, Tagged(s.b.at[q.key]));
      LeadsNext(s.st.mem, s'.st.mem, p.id, q.key, Tagged(s.b.at[q.key]), d);
    }
  }

  lemma NextSeen(s: Sys, s': Sys, q: Query, n: nat) returns (c: Ptr)
    requires Core(s) && Calm(s, s') && Attempt(s, q) && Timely(s', q) && Seen(s.b, q.start, Inner(n))
    requires q.key in s.b.at && n in s.st.mem.nodes && Leads(s.st.mem, Inner(n), q.key, Tagged(s.b.at[q.key]))
    ensures s.st.mem.nodes[n].sh < 16 && |s.st.mem.nodes[n].child| == 16
    ensures c == s.st.mem.nodes[n].child[q.key[s.st.mem.nodes[n].sh]] && c != Null && Seen(s.b, q.start, c)
    ensures Alloc(s.st.mem, c) && Alloc(s'.st.mem, c) && Rank(s'.st.mem, c) == Rank(s.st.mem, c)
    ensures Rank(s.st.mem, c) <= s.st.mem.nodes[n].sh
    ensures Leads(s.st.mem, c, q.key, Tagged(s.b.at[q.key]))
  {
    SeenChild(s, q.start, n, 0);
    var i := q.key[s.st.mem.nodes[n].sh];
    SeenChild(s, q.start, n, i);
    c := s.st.mem.nodes[n].child[i];
    SeenStays(s, s', q, c);
  }

  /** If the key leaves the index, the new map lacks it. */
  lemma GoneMissed(s: Sys, s': Sys, q: Query)
    requires History(s'.st.mem, s'.b, s'.hist) && Calm(s, s') && q.start < |s.hist| && q.key !in s'.b.at
    ensures Missed(s'.hist, q.key, q.start)
  {
    assert q.key !in s'.hist[|s.hist|];
  }

  lemma HoldsStays(s: Sys, s': Sys, q: Query, p: Ptr, hops: nat)
    requires Core(s) && History(s'.st.mem, s'.b, s'.hist) && Calm(s, s') && Attempt(s, q) && Timely(s', q)
    requires Holds(s, q, p, hops)
    ensures Holds(s', q, p, hops)
    ensures p.Inner? ==>
              p.id in s.st.mem.nodes && p.id in s'.st.mem.nodes && s'.st.mem.nodes[p.id].sh == s.st.mem.nodes[p.id].sh
  {
    if p != Null { SeenStays(s, s', q, p); }
    if Missed(s.hist, q.key, q.start) {
      MissedStays(s.hist, s'.hist, q.key, q.start);
    } else if q.key !in s'.b.at {
      GoneMissed(s, s', q);
    } else {
      LeadsStays(s, s', q, p);
    }
  }

  lemma AttemptStays(s: Sys, s': Sys, q: Query)
    requires Calm(s, s') && Attempt(s, q)
    ensures Attempt(s', q)
    ensures Timely(s', q) ==> Timely(s, q)
  {
    forall p | p in s'.b.limbo && q.start <= s'.b.limbo[p].dead ensures q.w <= s'.b.limbo[p].rem + 1 {
      if p in s.b.limbo {
        assert Fate(s, s', p);
      }
    }
  }

  lemma PtrKept(s: Sys, s': Sys, r: Reader)
    requires Core(s) && History(s'.st.mem, s'.b, s'.hist) && Calm(s, s') && ReaderOk(s, r) && (r.AtPtr? || r.AtSlot?)
    ensures ReaderOk(s', r)
  {
    AttemptStays(s, s', r.q);
    if Timely(s', r.q) {
      HoldsStays(s, s', r.q, r.cur, r.hops);
    }
  }

  lemma ReaderKept(s: Sys, s': Sys, r: Reader)
    requires Core(s) && History(s'.st.mem, s'.b, s'.hist) && Calm(s, s') && ReaderOk(s, r)
    ensures ReaderOk(s', r)
  {
    match r
    case Begin(_, _) =>
    case AtRoot(q) => AttemptStays(s, s', q);
    case AtPtr(_, _, _) => PtrKept(s, s', r);
    case AtSlot(_, _, _, _) => PtrKept(s, s', r);
    case AtValue(q, cur) =>
      AttemptStays(s, s', q);
      if Timely(s', q) { SeenStays(s, s', q, cur); }
    case AtCheck(q, res) =>
      AttemptStays(s, s', q);
      if Timely(s', q) { AnswerStays(s.hist, s'.hist, q.key, q.start, |s.hist| - 1, |s.hist|, res); }
    case Done(q, end, res) =>
      AnswerStays(s.hist, s'.hist, q.key, q.start, end, end, res);
  }

  // ---------------------------------------------------------------------------------------
  // Reader steps

  /** At the snapshot nothing unlinked counts as linked since. */
  lemma StepBegin(s: Sys, r: Reader)
    requires Core(s) && r.Begin? && ReaderOk(s, r)
    ensures ReaderOk(s, ReaderStep(s, r))
  {
    assert forall p {:trigger Epitaph(s.st.mem, s.b, s.hist, p)} :: p in s.b.limbo ==>
        Epitaph(s.st.mem, s.b, s.hist, p);
    assert forall p :: p in s.b.limbo ==> Epitaph(s.st.mem, s.b, s.hist, p) && s.b.limbo[p].dead < |s.hist| - 1;
  }

  lemma StepRoot(s: Sys, r: Reader)
    requires Core(s) && r.AtRoot? && ReaderOk(s, r)
    ensures ReaderOk(s, ReaderStep(s, r))
  {
    var root := s.st.mem.root;
    if root.Inner? { assert ObjOk(SZ, s.st.mem, s.b.up, root); }
    if r.q.key in s.b.at {
      RootLeads(SZ, s.st.mem, s.b.up, Tagged(s.b.at[r.q.key]));
    } else {
      assert r.q.key !in s.hist[|s.hist| - 1];
    }
  }

  lemma StepPtr(s: Sys, r: Reader)
    requires Core(s) && r.AtPtr? && ReaderOk(s, r)
    ensures ReaderOk(s, ReaderStep(s, r))
  {
    var AtPtr(q, cur, hops) := r;
    if cur.Inner? {
      assert SafeNode(s.st.mem, Raw(s.w), cur.id);
    } else if Timely(s, q) && ReaderStep(s, r).AtCheck? {
      assert Missed(s.hist, q.key, q.start);
      var j :| q.start <= j < |s.hist| && q.key !in s.hist[j];
      assert Lookup(s.hist[j], q.key) == Nil;
    }
  }

  /** Progress: the child that a timely reader loads has a smaller shift. */
  lemma StepSlot(s: Sys, r: Reader)
    requires Core(s) && r.AtSlot? && ReaderOk(s, r)
    ensures ReaderOk(s, ReaderStep(s, r))
  {
    var AtSlot(q, cur, hops, sh) := r;
    assert SafeNode(s.st.mem, Raw(s.w), cur.id);
    if Timely(s, q) {
      SeenChild(s, q.start, cur.id, q.key[sh]);
    }
  }

  lemma StepValue(s: Sys, r: Reader)
    requires Core(s) && r.AtValue? && ReaderOk(s, r)
    ensures ReaderOk(s, ReaderStep(s, r))
  {
    var AtValue(q, cur) := r;
    if Timely(s, q) {
      var j := if cur in s.b.up then |s.hist| - 1 else s.b.limbo[cur].dead;
      if cur !in s.b.up { assert Epitaph(s.st.mem, s.b, s.hist, cur); }
      assert s.st.mem.leaves[cur.id].value == Lookup(s.hist[j], q.key);
    }
  }

  lemma ReaderStepOk(s: Sys, r: Reader)
    requires Core(s) && ReaderOk(s, r)
    ensures ReaderOk(s, ReaderStep(s, r))
  {
    match r
    case Begin(_, _) => StepBegin(s, r);
    case AtRoot(_) => StepRoot(s, r);
    case AtPtr(_, _, _) => StepPtr(s, r);
    case AtSlot(_, _, _, _) => StepSlot(s, r);
    case AtValue(_, _) => StepValue(s, r);
    case AtCheck(_, _) =>
    case Done(_, _, _) =>
  }
}
