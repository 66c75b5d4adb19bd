/** The value-level meaning of one `EnsureBGP` pass (agent.go lines 154-202):
    a withdrawal pass over the announcement table followed by an addition pass
    over the desired list, both stopping at the first error. The collaborators
    the pass calls (the BGP server, the netlink loopback device, `net.ParseCIDR`)
    are oracles held in an `Environment`. */
module Reconcile {
  import opened Common

  /** The opaque path identifier (a UUID as bytes) that `AddPath` returns and
      `DeletePath` takes. */
  type Handle = seq<bv8>

  /** `announcementTable`: CIDR string to the handle of its announced path. */
  type Table = map<string, Handle>

  /** gobgp global configuration: local AS, router ID and listening port. */
  datatype GlobalConfig = GlobalConfig(asn: uint32, routerId: string, port: int)

  /** gobgp neighbor configuration of the single upstream peer. */
  datatype NeighborConfig = NeighborConfig(neighborAddress: string, peerAs: uint32, authPassword: string)

  /** What the outside world answers. `addPath(cidr, n)` is the answer to the
      AddPath call for `cidr` when `n` AddPath calls came before it in the same
      addition pass; `parseCIDR(cidr)` says whether `net.ParseCIDR` accepts it. */
  datatype Environment = Environment(
    start: GlobalConfig -> Option<Error>,
    addNeighbor: NeighborConfig -> Option<Error>,
    deletePath: Handle -> Option<Error>,
    parseCIDR: string -> bool,
    addAddr: string -> Option<Error>,
    addPath: (string, nat) -> Result<Handle>)

  /** A call the agent makes on the gobgp server or the loopback device. */
  datatype Call =
    | Start(global: GlobalConfig)
    | AddNeighbor(neighbor: NeighborConfig)
    | DeletePath(handle: Handle)
    | InstallAddr(cidr: string)
    | AddPath(cidr: string)

  /** Outcome of an addition pass: the new table, the error it stopped at, if
      any, and the calls it made in order. */
  datatype Pass = Pass(table: Table, err: Option<Error>, calls: seq<Call>)

  // ---------------------------------------------------------------------------
  // Withdrawal pass (agent.go lines 157-174)

  /** Table keys that are no longer desired. */
  ghost function Stale(t: Table, ips: seq<string>): set<string>
  {
    set k | k in t && k !in ips
  }

  /** The table with its stale entries removed. */
  ghost function Restrict(t: Table, ips: seq<string>): Table
  {
    map k | k in t && k in ips :: t[k]
  }

  /** Every stale entry's DeletePath would succeed. */
  ghost predicate Withdrawable(t: Table, ips: seq<string>, env: Environment)
  {
    forall k :: k in t && k !in ips ==> env.deletePath(t[k]).None?
  }

  /** The DeletePath calls for the keys of `order`, in that order. */
  ghost function DeleteCalls(t: Table, order: seq<string>): seq<Call>
    requires forall j :: 0 <= j < |order| ==> order[j] in t
  {
    if order == [] then []
    else DeleteCalls(t, order[..|order| - 1]) + [DeletePath(t[order[|order| - 1]])]
  }

  /** The last key visited had its DeletePath fail. */
  ghost predicate WithdrawFailed(t: Table, env: Environment, order: seq<string>)
    requires forall j :: 0 <= j < |order| ==> order[j] in t
  {
    |order| > 0 && env.deletePath(t[order[|order| - 1]]).Some?
  }

  /** `order` is a possible sequence of stale keys on which the withdrawal pass
      called DeletePath, for some iteration order of the Go map: each stale key
      at most once, every call but the last one succeeded, and unless the last
      one failed, every stale key was visited. */
  ghost predicate ValidOrder(t: Table, ips: seq<string>, env: Environment, order: seq<string>)
  {
    Distinct(order) &&
    (forall j :: 0 <= j < |order| ==> order[j] in t && order[j] !in ips) &&
    (forall j :: 0 <= j < |order| - 1 ==> env.deletePath(t[order[j]]).None?) &&
    (!WithdrawFailed(t, env, order) ==> forall k :: k in t && k !in ips ==> k in order)
  }

  // ---------------------------------------------------------------------------
  // Addition pass (agent.go lines 176-200)

  /** The addition pass from position `i` of the desired list: parse the CIDR,
      install it on loopback, add the path, store the handle; the first failure
      ends the pass. */
  ghost function AddPass(t: Table, ips: seq<string>, env: Environment, i: nat): Pass
    requires i <= |ips|
    decreases |ips| - i
  {
    if i == |ips| then Pass(t, None, [])
    else
      var c := ips[i];
      if !env.parseCIDR(c) then Pass(t, Some(CIDRParseError(c)), [])
      else if env.addAddr(c).Some? then Pass(t, env.addAddr(c), [InstallAddr(c)])
      else match env.addPath(c, i)
        case Err(e) => Pass(t, Some(e), [InstallAddr(c), AddPath(c)])
        case Ok(h) =>
          var rest := AddPass(t[c := h], ips, env, i + 1);
          Pass(rest.table, rest.err, [InstallAddr(c), AddPath(c)] + rest.calls)
  }

  /** Block `j` of the desired list gets through all three steps. */
  ghost predicate BlockOk(ips: seq<string>, env: Environment, j: nat)
    requires j < |ips|
  {
    env.parseCIDR(ips[j]) && env.addAddr(ips[j]).None? && env.addPath(ips[j], j).Ok?
  }

  /** The error at which block `j` stops. */
  ghost function BlockError(ips: seq<string>, env: Environment, j: nat): Error
    requires j < |ips| && !BlockOk(ips, env, j)
  {
    if !env.parseCIDR(ips[j]) then CIDRParseError(ips[j])
    else if env.addAddr(ips[j]).Some? then env.addAddr(ips[j]).value
    else env.addPath(ips[j], j).error
  }

  /** The handle block `j`'s AddPath returned. */
  ghost function NewHandle(ips: seq<string>, env: Environment, j: nat): Handle
    requires j < |ips| && BlockOk(ips, env, j)
  {
    env.addPath(ips[j], j).value
  }

  /** The calls a failing block `j` makes before it stops. */
  ghost function BlockCalls(ips: seq<string>, env: Environment, j: nat): seq<Call>
    requires j < |ips| && !BlockOk(ips, env, j)
  {
    if !env.parseCIDR(ips[j]) then []
    else if env.addAddr(ips[j]).Some? then [InstallAddr(ips[j])]
    else [InstallAddr(ips[j]), AddPath(ips[j])]
  }

  /** Position `j` holds the last occurrence of its CIDR in the list. */
  ghost predicate LastOccurrence(ips: seq<string>, j: nat)
    requires j < |ips|
  {
    forall k :: j < k < |ips| ==> ips[k] != ips[j]
  }

  /** One full pass over one table, in the terms of the source: the withdrawal
      pass visits the stale keys in `order`; if it completes, the addition pass
      runs on what is left. `t1`, `err` and `cs` are the resulting table, the
      returned error and the calls made. */
  ghost predicate ReconciledVia(t0: Table, ips: seq<string>, env: Environment, order: seq<string>,
                                t1: Table, err: Option<Error>, cs: seq<Call>)
  {
    ValidOrder(t0, ips, env, order) &&
    if WithdrawFailed(t0, env, order) then
      t1 == t0 - Elems(order[..|order| - 1]) &&
      err == env.deletePath(t0[order[|order| - 1]]) &&
      cs == DeleteCalls(t0, order)
    else
      var p := AddPass(Restrict(t0, ips), ips, env, 0);
      t1 == p.table && err == p.err && cs == DeleteCalls(t0, order) + p.calls
  }

  /** Some iteration order of the Go map leads from `t0` to `t1`. */
  ghost predicate Reconciled(t0: Table, ips: seq<string>, env: Environment,
                             t1: Table, err: Option<Error>, cs: seq<Call>)
  {
    exists order :: ReconciledVia(t0, ips, env, order, t1, err, cs)
  }

  // ---------------------------------------------------------------------------
  // Facts about the pieces

  lemma {:induction false} DeleteCallsAt(t: Table, order: seq<string>)
    requires forall j :: 0 <= j < |order| ==> order[j] in t
    ensures |DeleteCalls(t, order)| == |order|
    ensures forall j :: 0 <= j < |order| ==> DeleteCalls(t, order)[j] == DeletePath(t[order[j]])
  {
    if order != [] {
      DeleteCallsAt(t, order[..|order| - 1]);
    }
  }

  /** Visiting one more key appends its DeletePath call. */
  lemma DeleteCallsSnoc(t: Table, order: seq<string>, k: string)
    requires forall j :: 0 <= j < |order| ==> order[j] in t
    requires k in t
    ensures DeleteCalls(t, order + [k]) == DeleteCalls(t, order) + [DeletePath(t[k])]
  {
    assert (order + [k])[..|order|] == order;
  }

  /** One step of the addition pass: a block that gets through moves on to
      the next one with its handle stored; a failing block ends the pass. */
  lemma AddPassUnfold(t: Table, ips: seq<string>, env: Environment, i: nat)
    requires i < |ips|
    ensures BlockOk(ips, env, i) ==>
      var rest := AddPass(t[ips[i] := NewHandle(ips, env, i)], ips, env, i + 1);
      AddPass(t, ips, env, i) == Pass(rest.table, rest.err, [InstallAddr(ips[i]), AddPath(ips[i])] + rest.calls)
    ensures !BlockOk(ips, env, i) ==>
      AddPass(t, ips, env, i) == Pass(t, Some(BlockError(ips, env, i)), BlockCalls(ips, env, i))
  {
  }

  /** A distinct sequence has as many elements as its set of elements. */
  lemma {:induction false} DistinctCard<T>(s: seq<T>)
    requires Distinct(s)
    ensures |Elems(s)| == |s|
  {
    if s != [] {
      var init := s[..|s| - 1];
      DistinctCard(init);
      assert Elems(s) == Elems(init) + {s[|s| - 1]};
      assert s[|s| - 1] !in Elems(init);
    }
  }

  /** The withdrawal pass visits at most as many keys as there are stale ones. */
  lemma OrderWithinStale(t: Table, ips: seq<string>, env: Environment, order: seq<string>)
    requires ValidOrder(t, ips, env, order)
    ensures Elems(order) <= Stale(t, ips) && |order| <= |Stale(t, ips)|
  {
    DistinctCard(order);
    SubsetCard(Elems(order), Stale(t, ips));
  }

  lemma {:induction false} SubsetCard<T>(a: set<T>, b: set<T>)
    requires a <= b
    ensures |a| <= |b|
    decreases a
  {
    if a != {} {
      var x :| x in a;
      SubsetCard(a - {x}, b - {x});
    }
  }

  /** The withdrawal pass stops with an error exactly when some stale entry's
      DeletePath fails, whatever the iteration order. */
  lemma WithdrawalFailsIff(t: Table, ips: seq<string>, env: Environment, order: seq<string>)
    requires ValidOrder(t, ips, env, order)
    ensures WithdrawFailed(t, env, order) <==> !Withdrawable(t, ips, env)
  {
    if !WithdrawFailed(t, env, order) {
      forall k | k in t && k !in ips
        ensures env.deletePath(t[k]).None?
      {
        var j :| 0 <= j < |order| && order[j] == k;
      }
    }
  }

  /** The addition pass only adds or overwrites entries, only under desired
      keys, and never calls DeletePath. */
  lemma {:induction false} AddPassFrame(t: Table, ips: seq<string>, env: Environment, i: nat)
    requires i <= |ips|
    ensures var p := AddPass(t, ips, env, i);
      t.Keys <= p.table.Keys <= t.Keys + Elems(ips) &&
      (forall k :: k in t && k !in ips ==> p.table[k] == t[k]) &&
      (forall c :: c in p.calls ==> !c.DeletePath?)
    decreases |ips| - i
  {
    if i < |ips| && BlockOk(ips, env, i) {
      AddPassFrame(t[ips[i] := NewHandle(ips, env, i)], ips, env, i + 1);
    }
  }

  /** The addition pass returns nil exactly when every block from `i` on gets
      through parsing, loopback install and AddPath. */
  lemma {:induction false} AddPassSucceeds(t: Table, ips: seq<string>, env: Environment, i: nat)
    requires i <= |ips|
    ensures AddPass(t, ips, env, i).err.None? <==> forall j :: i <= j < |ips| ==> BlockOk(ips, env, j)
    decreases |ips| - i
  {
    if i < |ips| && BlockOk(ips, env, i) {
      AddPassSucceeds(t[ips[i] := NewHandle(ips, env, i)], ips, env, i + 1);
    }
  }

  /** When every block succeeds: the table gains exactly the desired keys, each
      holding the handle of its last AddPath (a repeated CIDR ends as one key
      with the later handle), and other entries are untouched. */
  lemma {:induction false} AddPassTable(t: Table, ips: seq<string>, env: Environment, i: nat)
    requires i <= |ips|
    requires forall j :: i <= j < |ips| ==> BlockOk(ips, env, j)
    ensures var p := AddPass(t, ips, env, i);
      p.table.Keys == t.Keys + Elems(ips[i..]) &&
      (forall j :: i <= j < |ips| && LastOccurrence(ips, j) ==> p.table[ips[j]] == NewHandle(ips, env, j)) &&
      (forall k :: k in t && k !in ips[i..] ==> p.table[k] == t[k])
    decreases |ips| - i
  {
    if i < |ips| {
      var c := ips[i];
      assert BlockOk(ips, env, i);
      var t' := t[c := NewHandle(ips, env, i)];
      AddPassTable(t', ips, env, i + 1);
      assert ips[i..] == [c] + ips[i + 1..];
      var rest := AddPass(t', ips, env, i + 1);
      var p := AddPass(t, ips, env, i);
      assert p.table == rest.table;
      forall j | i <= j < |ips| && LastOccurrence(ips, j)
        ensures p.table[ips[j]] == NewHandle(ips, env, j)
      {
        if j == i {
          assert c !in ips[i + 1..] by {
            forall m | i + 1 <= m < |ips| ensures ips[m] != c { }
          }
        }
      }
    } else {
      assert ips[i..] == [];
    }
  }

  /** When every block succeeds, the calls are the loopback install and then
      the AddPath of each block, in list order. */
  lemma {:induction false} AddPassCalls(t: Table, ips: seq<string>, env: Environment, i: nat)
    requires i <= |ips|
    requires forall j :: i <= j < |ips| ==> BlockOk(ips, env, j)
    ensures var p := AddPass(t, ips, env, i);
      |p.calls| == 2 * (|ips| - i) &&
      forall j :: i <= j < |ips| ==>
        p.calls[2 * (j - i)] == InstallAddr(ips[j]) && p.calls[2 * (j - i) + 1] == AddPath(ips[j])
    decreases |ips| - i
  {
    if i < |ips| {
      var c := ips[i];
      assert BlockOk(ips, env, i);
      var t' := t[c := NewHandle(ips, env, i)];
      AddPassCalls(t', ips, env, i + 1);
      var rest := AddPass(t', ips, env, i + 1);
      assert AddPass(t, ips, env, i).calls == [InstallAddr(c), AddPath(c)] + rest.calls;
    }
  }

  /** When block `f` is the first to fail: the pass returns that block's error,
      and its table and calls are those of a successful pass over the blocks
      before `f`, followed by the calls block `f` made before it stopped. */
  lemma {:induction false} AddPassFailFast(t: Table, ips: seq<string>, env: Environment, i: nat, f: nat)
    requires i <= f < |ips|
    requires forall j :: i <= j < f ==> BlockOk(ips, env, j)
    requires !BlockOk(ips, env, f)
    ensures var p := AddPass(t, ips, env, i);
      var q := AddPass(t, ips[..f], env, i);
      p.err == Some(BlockError(ips, env, f)) && q.err.None? &&
      p.table == q.table && p.calls == q.calls + BlockCalls(ips, env, f)
    decreases f - i
  {
    if i < f {
      var c := ips[i];
      assert ips[..f][i] == c;
      assert BlockOk(ips, env, i);
      AddPassFailFast(t[c := NewHandle(ips, env, i)], ips, env, i + 1, f);
    }
  }

  // ---------------------------------------------------------------------------
  // Properties of a whole pass

  /** A pass ends without error exactly when every stale entry's DeletePath and
      every desired block's three steps succeed. */
  lemma ReconcileSucceedsIff(t0: Table, ips: seq<string>, env: Environment,
                             t1: Table, err: Option<Error>, cs: seq<Call>)
    requires Reconciled(t0, ips, env, t1, err, cs)
    ensures err.None? <==>
              Withdrawable(t0, ips, env) && forall j :: 0 <= j < |ips| ==> BlockOk(ips, env, j)
  {
    var order :| ReconciledVia(t0, ips, env, order, t1, err, cs);
    WithdrawalFailsIff(t0, ips, env, order);
    AddPassSucceeds(Restrict(t0, ips), ips, env, 0);
  }

  /** When the pass returns nil, the table's keys are exactly the desired
      CIDRs, and each holds the handle of the last AddPath made for it. */
  lemma ConvergedTableMatchesDesired(t0: Table, ips: seq<string>, env: Environment,
                                     t1: Table, cs: seq<Call>)
    requires Reconciled(t0, ips, env, t1, None, cs)
    ensures t1.Keys == Elems(ips)
    ensures forall j :: 0 <= j < |ips| && LastOccurrence(ips, j) ==>
              BlockOk(ips, env, j) && t1[ips[j]] == NewHandle(ips, env, j)
  {
    var order :| ReconciledVia(t0, ips, env, order, t1, None, cs);
    assert !WithdrawFailed(t0, env, order);
    var r := Restrict(t0, ips);
    AddPassSucceeds(r, ips, env, 0);
    AddPassTable(r, ips, env, 0);
    assert ips[0..] == ips;
  }

  /** No entry disappears unless it was stale and its DeletePath succeeded;
      desired entries always survive; no key appears that was neither there
      nor desired. */
  lemma NoEntryLostWithoutDelete(t0: Table, ips: seq<string>, env: Environment,
                                 t1: Table, err: Option<Error>, cs: seq<Call>)
    requires Reconciled(t0, ips, env, t1, err, cs)
    ensures forall k :: k in t0 && k !in t1 ==>
              k !in ips && env.deletePath(t0[k]).None? && DeletePath(t0[k]) in cs
    ensures forall k :: k in t0 && k in ips ==> k in t1
    ensures t1.Keys <= t0.Keys + Elems(ips)
  {
    var order :| ReconciledVia(t0, ips, env, order, t1, err, cs);
    DeleteCallsAt(t0, order);
    var ds := DeleteCalls(t0, order);
    if WithdrawFailed(t0, env, order) {
      forall k | k in t0 && k !in t1
        ensures k !in ips && env.deletePath(t0[k]).None? && DeletePath(t0[k]) in cs
      {
        var j :| 0 <= j < |order| - 1 && order[j] == k;
        assert cs[j] == DeletePath(t0[k]);
      }
    } else {
      var r := Restrict(t0, ips);
      AddPassFrame(r, ips, env, 0);
      forall k | k in t0 && k !in t1
        ensures k !in ips && env.deletePath(t0[k]).None? && DeletePath(t0[k]) in cs
      {
        var j :| 0 <= j < |order| && order[j] == k;
        assert cs[j] == DeletePath(t0[k]);
      }
    }
  }

  /** The blocks before `f` fare the same in the list cut at `f`. */
  lemma PrefixBlocksOk(ips: seq<string>, env: Environment, f: nat)
    requires f <= |ips|
    requires forall j :: 0 <= j < f ==> BlockOk(ips, env, j)
    ensures forall j :: 0 <= j < f ==>
              BlockOk(ips[..f], env, j) && NewHandle(ips[..f], env, j) == NewHandle(ips, env, j)
  {
    forall j | 0 <= j < f
      ensures BlockOk(ips[..f], env, j) && NewHandle(ips[..f], env, j) == NewHandle(ips, env, j)
    {
      assert ips[..f][j] == ips[j] && BlockOk(ips, env, j);
    }
  }

  /** The pass with every stale entry withdrawn, stopped at block `f`, is the
      successful pass over the blocks before `f`. */
  lemma WithdrawnThenStopped(t0: Table, ips: seq<string>, env: Environment,
                             t1: Table, err: Option<Error>, cs: seq<Call>, f: nat) returns (order: seq<string>)
    requires Reconciled(t0, ips, env, t1, err, cs)
    requires Withdrawable(t0, ips, env)
    requires f < |ips| && !BlockOk(ips, env, f)
    requires forall j :: 0 <= j < f ==> BlockOk(ips, env, j)
    ensures ValidOrder(t0, ips, env, order) && !WithdrawFailed(t0, env, order)
    ensures var q := AddPass(Restrict(t0, ips), ips[..f], env, 0);
      err == Some(BlockError(ips, env, f)) && t1 == q.table &&
      cs == DeleteCalls(t0, order) + q.calls + BlockCalls(ips, env, f)
  {
    order :| ReconciledVia(t0, ips, env, order, t1, err, cs);
    WithdrawalFailsIff(t0, ips, env, order);
    AddPassFailFast(Restrict(t0, ips), ips, env, 0, f);
  }

  /** The first failing block stops the pass: its error is returned, earlier
      blocks keep their new handles, and the failing block's own entry, unless
      an earlier duplicate rewrote it, is what it was. */
  lemma AnnounceFailFast(t0: Table, ips: seq<string>, env: Environment,
                         t1: Table, err: Option<Error>, cs: seq<Call>, f: nat)
    requires Reconciled(t0, ips, env, t1, err, cs)
    requires Withdrawable(t0, ips, env)
    requires f < |ips| && !BlockOk(ips, env, f)
    requires forall j :: 0 <= j < f ==> BlockOk(ips, env, j)
    ensures err == Some(BlockError(ips, env, f))
    ensures forall j :: 0 <= j < f && (forall k :: j < k < f ==> ips[k] != ips[j]) ==>
              ips[j] in t1 && t1[ips[j]] == NewHandle(ips, env, j)
    ensures ips[f] !in ips[..f] ==> (ips[f] in t1 <==> ips[f] in t0)
    ensures ips[f] !in ips[..f] && ips[f] in t0 ==> t1[ips[f]] == t0[ips[f]]
  {
    var _ := WithdrawnThenStopped(t0, ips, env, t1, err, cs, f);
    var r := Restrict(t0, ips);
    var pre := ips[..f];
    PrefixBlocksOk(ips, env, f);
    AddPassTable(r, pre, env, 0);
    assert pre[0..] == pre;
    forall j | 0 <= j < f && (forall k :: j < k < f ==> ips[k] != ips[j])
      ensures ips[j] in t1 && t1[ips[j]] == NewHandle(ips, env, j)
    {
      assert pre[j] == ips[j];
      assert LastOccurrence(pre, j);
    }
  }

  /** After the first failing block nothing more is called: the pass's calls
      are the DeletePath calls, the calls of the blocks before the failing one,
      and what the failing block called before it stopped. */
  lemma AnnounceFailFastCalls(t0: Table, ips: seq<string>, env: Environment,
                              t1: Table, err: Option<Error>, cs: seq<Call>, f: nat)
    requires Reconciled(t0, ips, env, t1, err, cs)
    requires Withdrawable(t0, ips, env)
    requires f < |ips| && !BlockOk(ips, env, f)
    requires forall j :: 0 <= j < f ==> BlockOk(ips, env, j)
    ensures var tail := AddPass(Restrict(t0, ips), ips[..f], env, 0).calls + BlockCalls(ips, env, f);
      |tail| <= |cs| && cs[|cs| - |tail|..] == tail &&
      forall i :: 0 <= i < |cs| - |tail| ==> cs[i].DeletePath?
  {
    var order := WithdrawnThenStopped(t0, ips, env, t1, err, cs, f);
    DeleteCallsAt(t0, order);
    var tail := AddPass(Restrict(t0, ips), ips[..f], env, 0).calls + BlockCalls(ips, env, f);
    assert cs == DeleteCalls(t0, order) + tail;
  }

  /** With nothing desired and every DeletePath succeeding, the table is
      drained: one DeletePath per entry, no install, no AddPath. */
  lemma DrainOnEmpty(t0: Table, env: Environment, t1: Table, err: Option<Error>, cs: seq<Call>)
    requires Withdrawable(t0, [], env)
    requires Reconciled(t0, [], env, t1, err, cs)
    ensures t1 == map[] && err == None
    ensures |cs| == |t0| && forall c :: c in cs ==> c.DeletePath?
    ensures forall k :: k in t0 ==> DeletePath(t0[k]) in cs
  {
    var order :| ReconciledVia(t0, [], env, order, t1, err, cs);
    WithdrawalFailsIff(t0, [], env, order);
    assert Restrict(t0, []) == map[];
    DeleteCallsAt(t0, order);
    assert Elems(order) == t0.Keys;
    DistinctCard(order);
    forall k | k in t0 ensures DeletePath(t0[k]) in cs {
      var j :| 0 <= j < |order| && order[j] == k;
      assert cs[j] == DeletePath(t0[k]);
    }
  }

  /** Running the pass again on the list it has just converged to withdraws
      nothing and keeps the same keys, whatever the collaborators answer. */
  lemma ReassertWithdrawsNothing(t0: Table, ips: seq<string>, env: Environment, t1: Table, cs: seq<Call>,
                                 env2: Environment, t2: Table, err2: Option<Error>, cs2: seq<Call>)
    requires Reconciled(t0, ips, env, t1, None, cs)
    requires Reconciled(t1, ips, env2, t2, err2, cs2)
    ensures forall c :: c in cs2 ==> !c.DeletePath?
    ensures t2.Keys == t1.Keys
  {
    ConvergedTableMatchesDesired(t0, ips, env, t1, cs);
    var order :| ReconciledVia(t1, ips, env2, order, t2, err2, cs2);
    assert Stale(t1, ips) == {};
    OrderWithinStale(t1, ips, env2, order);
    assert Restrict(t1, ips) == t1;
    AddPassFrame(t1, ips, env2, 0);
  }
}
