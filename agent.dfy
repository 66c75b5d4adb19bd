/** agent.go: the `PacketBGPAgent`, its construction, the handling of one
    metadata snapshot from the watch loop of `EnsureIPs`, and the `EnsureBGP`
    reconciliation of the announcement table against the desired CIDR list. */
module Agent {
  import opened Common
  import opened Strconv
  import opened Helpers
  import opened Reconcile

  /** A value of the instance's free-form `customdata`, as JSON decoding leaves
      it: a string, a number (only integral values in 32-bit range are
      modelled), a list, or anything else (object, boolean, null). */
  datatype Value = Str(s: string) | Num(n: uint32) | List(items: seq<Value>) | Other

  /** How the handling of one snapshot ended. `Panicked` stands for a failed Go
      type assertion; unrecovered, it ends the whole process, whereas the model
      keeps the agent and its state so that later snapshots can be handled. */
  datatype SnapshotOutcome =
    | Panicked
    | AnnounceUnset
    | AnnounceUnrecognised
    | Ensured(err: Option<Error>)

  /** The upstream peer's AS, fixed in the neighbor configuration. */
  const PeerAS: uint32 := 65530

  /** `Port: -1`: gobgp does not listen on TCP port 179. */
  const NoListenPort: int := -1

  /** The type switch on the `ASN` value: a string is parsed (its error is only
      logged, so Go's fallback value is used), a number is converted, and any
      other type leaves the zero value. */
  function DecodeASN(v: Value): (asn: uint32)
    ensures v.Str? && IsDecimal(v.s) && DecimalValue(v.s) <= MaxUint32 as int ==> asn as int == DecimalValue(v.s)
    ensures v.Str? && ParseUint32(v.s).err == Some(SyntaxError(v.s)) ==> asn == 0
    ensures v.Str? && ParseUint32(v.s).err == Some(RangeError(v.s)) ==> asn == MaxUint32
    ensures v.Num? ==> asn == v.n
    ensures !v.Str? && !v.Num? ==> asn == 0
  {
    match v
    case Str(s) => ParseUint32(s).value
    case Num(n) => n
    case _ => 0
  }

  /** `BGP_ANNOUNCE` value `v` is a recognised shape that decodes to `ips`:
      a single string becomes a one-element list, a list of strings is taken
      element by element in order. */
  ghost predicate DecodesTo(v: Value, ips: seq<string>)
  {
    (v.Str? && ips == [v.s]) ||
    (v.List? && |ips| == |v.items| && forall i :: 0 <= i < |ips| ==> v.items[i] == Str(ips[i]))
  }

  /** The inner loop of the withdrawal pass: is `x` one of the desired CIDRs? */
  method Contains(ips: seq<string>, x: string) returns (found: bool)
    ensures found <==> x in ips
  {
    found := false;
    var i := 0;
    while i < |ips|
      invariant 0 <= i <= |ips|
      invariant forall j :: 0 <= j < i ==> ips[j] != x
    {
      found := ips[i] == x;
      if found {
        return;
      }
      i := i + 1;
    }
  }

  /** Building `ips` from a JSON list: every element must be a string (the
      type assertion `a[i].(string)` panics otherwise, reported as None). */
  method StringsOf(items: seq<Value>) returns (r: Option<seq<string>>)
    ensures r.Some? <==> forall i :: 0 <= i < |items| ==> items[i].Str?
    ensures r.Some? ==> |r.value| == |items| && forall i :: 0 <= i < |items| ==> items[i] == Str(r.value[i])
  {
    var ips: seq<string> := [];
    var i := 0;
    while i < |items|
      invariant 0 <= i <= |items|
      invariant |ips| == i
      invariant forall j :: 0 <= j < i ==> items[j] == Str(ips[j])
    {
      if !items[i].Str? {
        return None;
      }
      ips := ips + [items[i].s];
      i := i + 1;
    }
    return Some(ips);
  }

  class PacketBGPAgent {
    /** The collaborators: the gobgp server and its gRPC API, the loopback
        device and `net.ParseCIDR`. */
    const env: Environment
    /** `PrivateIP`: the management address chosen at start-up. */
    const privateIP: AddressInfo
    /** `AnnoucementIPs`: the desired CIDR blocks, in metadata order. */
    var announcementIPs: seq<string>
    var md5Password: string
    var asn: uint32
    /** `announcementTable`: announced CIDR to the handle of its path. */
    var announcementTable: Table
    /** Every CIDR that was ever desired. */
    ghost var everDesired: set<string>
    /** The calls made so far on the gobgp server and the loopback device
        (the `net.ParseCIDR` check is not recorded). */
    ghost var calls: seq<Call>

    /** The table only ever holds blocks that were desired at some point. */
    ghost predicate Valid()
      reads this
    {
      (forall k :: k in announcementTable ==> k in everDesired) &&
      (forall c :: c in announcementIPs ==> c in everDesired)
    }

    /** The state `NewPacketBGPAgent` returns after the server has started. */
    constructor (env: Environment, privateIP: AddressInfo, md5Password: string, asn: uint32,
                 ghost startCalls: seq<Call>)
      ensures Valid()
      ensures this.env == env && this.privateIP == privateIP
      ensures this.md5Password == md5Password && this.asn == asn
      ensures announcementIPs == [] && announcementTable == map[]
      ensures everDesired == {}
      ensures calls == startCalls
    {
      this.env := env;
      this.privateIP := privateIP;
      this.md5Password := md5Password;
      this.asn := asn;
      announcementIPs := [];
      announcementTable := map[];
      everDesired := {};
      calls := startCalls;
    }

    /** One key of the withdrawal pass: if `annIP` is no longer desired,
        DeletePath its handle and, only once that succeeded, drop the entry.
        `visited` says whether DeletePath was called. */
    method WithdrawKey(ips: seq<string>, annIP: string) returns (visited: bool, err: Option<Error>)
      requires annIP in announcementTable
      modifies this`announcementTable, this`calls
      ensures visited <==> annIP !in ips
      ensures !visited ==> err.None? && announcementTable == old(announcementTable) && calls == old(calls)
      ensures visited ==>
                var uuid := old(announcementTable)[annIP];
                err == env.deletePath(uuid) && calls == old(calls) + [DeletePath(uuid)] &&
                announcementTable == if err.None? then old(announcementTable) - {annIP} else old(announcementTable)
    {
      var found := Contains(ips, annIP);
      visited, err := !found, None;
      if !found {
        var uuid := announcementTable[annIP];
        err := env.deletePath(uuid);
        calls := calls + [DeletePath(uuid)];
        if err.Some? {
          return;
        }
        announcementTable := announcementTable - {annIP};
      }
    }

    /** The withdrawal pass: for each table key in some order, if it is no
        longer desired, DeletePath its handle and, only once that succeeded,
        remove the entry; the first DeletePath error is returned at once.
        `order` is the sequence of keys DeletePath was called for. */
    method Withdraw() returns (err: Option<Error>, ghost order: seq<string>)
      requires Valid()
      modifies this`announcementTable, this`calls
      ensures Valid()
      ensures ValidOrder(old(announcementTable), announcementIPs, env, order)
      ensures err.Some? <==> WithdrawFailed(old(announcementTable), env, order)
      ensures err.Some? ==>
                announcementTable == old(announcementTable) - Elems(order[..|order| - 1]) &&
                err == env.deletePath(old(announcementTable)[order[|order| - 1]])
      ensures err.None? ==> announcementTable == Restrict(old(announcementTable), announcementIPs)
      ensures calls == old(calls) + DeleteCalls(old(announcementTable), order)
    {
      var ips := announcementIPs;
      ghost var t0, c0 := announcementTable, calls;
      var pending := announcementTable.Keys;
      order := [];
      while pending != {}
        invariant pending <= t0.Keys
        invariant forall j :: 0 <= j < |order| ==>
                    order[j] in t0 && order[j] !in ips && order[j] !in pending
        invariant Distinct(order)
        invariant forall j :: 0 <= j < |order| ==> env.deletePath(t0[order[j]]).None?
        invariant forall k :: k in t0 && k !in pending && k !in ips ==> k in order
        invariant announcementTable == t0 - Elems(order)
        invariant calls == c0 + DeleteCalls(t0, order)
        invariant forall k :: k in announcementTable ==> k in everDesired
        decreases pending
      {
        var annIP :| annIP in pending;
        pending := pending - {annIP};
        var visited, e := WithdrawKey(ips, annIP);
        if visited {
          ghost var before := order;
          DeleteCallsSnoc(t0, before, annIP);
          assert Elems(before + [annIP]) == Elems(before) + {annIP};
          assert calls == c0 + DeleteCalls(t0, before + [annIP]);
          order := before + [annIP];
          if e.Some? {
            assert order[..|order| - 1] == before;
            return e, order;
          }
        }
      }
      assert announcementTable == Restrict(t0, ips);
      err := None;
    }

    /** One block of the addition pass: parse the CIDR, install it on
        loopback, add the path and store the returned handle under the CIDR;
        the first step that fails returns its error. */
    method AnnounceBlock(ips: seq<string>, i: nat) returns (err: Option<Error>)
      requires i < |ips|
      modifies this`announcementTable, this`calls
      ensures BlockOk(ips, env, i) ==>
                err.None? &&
                announcementTable == old(announcementTable)[ips[i] := NewHandle(ips, env, i)] &&
                calls == old(calls) + [InstallAddr(ips[i]), AddPath(ips[i])]
      ensures !BlockOk(ips, env, i) ==>
                err == Some(BlockError(ips, env, i)) && announcementTable == old(announcementTable) &&
                calls == old(calls) + BlockCalls(ips, env, i)
    {
      var announceIP := ips[i];
      if !env.parseCIDR(announceIP) {
        return Some(CIDRParseError(announceIP));
      }
      err := env.addAddr(announceIP);
      calls := calls + [InstallAddr(announceIP)];
      if err.Some? {
        return;
      }
      var pathID := env.addPath(announceIP, i);
      calls := calls + [AddPath(announceIP)];
      if pathID.Err? {
        return Some(pathID.error);
      }
      announcementTable := announcementTable[announceIP := pathID.value];
    }

    /** The addition pass: each desired block in list order, stopping at the
        first error. */
    method Announce() returns (err: Option<Error>)
      requires Valid()
      modifies this`announcementTable, this`calls
      ensures Valid()
      ensures var p := AddPass(old(announcementTable), announcementIPs, env, 0);
        announcementTable == p.table && err == p.err && calls == old(calls) + p.calls
    {
      var ips := announcementIPs;
      ghost var target := AddPass(announcementTable, ips, env, 0);
      ghost var c0 := calls;
      ghost var done: seq<Call> := [];
      var i := 0;
      while i < |ips|
        invariant 0 <= i <= |ips|
        invariant calls == c0 + done
        invariant target.table == AddPass(announcementTable, ips, env, i).table
        invariant target.err == AddPass(announcementTable, ips, env, i).err
        invariant target.calls == done + AddPass(announcementTable, ips, env, i).calls
        invariant forall k :: k in announcementTable ==> k in everDesired
      {
        ghost var t := announcementTable;
        AddPassUnfold(t, ips, env, i);
        err := AnnounceBlock(ips, i);
        if err.Some? {
          assert calls == c0 + (done + BlockCalls(ips, env, i));
          return;
        }
        ghost var rest := AddPass(announcementTable, ips, env, i + 1);
        assert target.calls == (done + [InstallAddr(ips[i]), AddPath(ips[i])]) + rest.calls;
        assert calls == c0 + (done + [InstallAddr(ips[i]), AddPath(ips[i])]);
        done := done + [InstallAddr(ips[i]), AddPath(ips[i])];
        i := i + 1;
      }
      err := None;
    }

    /** `EnsureBGP`: withdraw what is no longer desired, then announce what is.
        On nil the table's keys are exactly the desired blocks. */
    method EnsureBGP() returns (err: Option<Error>)
      requires Valid()
      modifies this`announcementTable, this`calls
      ensures Valid()
      ensures |old(calls)| <= |calls| && calls[..|old(calls)|] == old(calls)
      ensures Reconciled(old(announcementTable), announcementIPs, env, announcementTable, err, calls[|old(calls)|..])
      ensures err.None? ==> announcementTable.Keys == Elems(announcementIPs)
      ensures announcementTable.Keys <= old(announcementTable).Keys + Elems(announcementIPs)
    {
      ghost var t0, c0 := announcementTable, calls;
      var werr;
      ghost var order;
      werr, order := Withdraw();
      if werr.Some? {
        assert calls[|c0|..] == DeleteCalls(t0, order);
        assert ReconciledVia(t0, announcementIPs, env, order, announcementTable, werr, calls[|c0|..]);
        NoEntryLostWithoutDelete(t0, announcementIPs, env, announcementTable, werr, calls[|c0|..]);
        return werr;
      }
      err := Announce();
      assert calls[|c0|..] == DeleteCalls(t0, order) + AddPass(Restrict(t0, announcementIPs), announcementIPs, env, 0).calls;
      assert ReconciledVia(t0, announcementIPs, env, order, announcementTable, err, calls[|c0|..]);
      NoEntryLostWithoutDelete(t0, announcementIPs, env, announcementTable, err, calls[|c0|..]);
      if err.None? {
        ConvergedTableMatchesDesired(t0, announcementIPs, env, announcementTable, calls[|c0|..]);
      }
    }

    /** The `BGP_ANNOUNCE` type switch of the watch loop: a string or a list of
        strings becomes the desired list and `EnsureBGP` runs; a list with a
        non-string element panics and any other shape is ignored, both leaving
        the desired list and the table as they were. */
    method AdoptAnnouncement(announced: Value) returns (outcome: SnapshotOutcome)
      requires Valid()
      modifies this`announcementIPs, this`everDesired, this`announcementTable, this`calls
      ensures Valid()
      ensures outcome != AnnounceUnset
      ensures outcome == Panicked <==>
                announced.List? && exists i :: 0 <= i < |announced.items| && !announced.items[i].Str?
      ensures outcome == AnnounceUnrecognised <==> !announced.Str? && !announced.List?
      ensures everDesired == old(everDesired) + (if outcome.Ensured? then Elems(announcementIPs) else {})
      ensures !outcome.Ensured? ==>
                announcementIPs == old(announcementIPs) && announcementTable == old(announcementTable) &&
                calls == old(calls)
      ensures outcome.Ensured? ==>
                DecodesTo(announced, announcementIPs) &&
                |old(calls)| <= |calls| && calls[..|old(calls)|] == old(calls) &&
                Reconciled(old(announcementTable), announcementIPs, env, announcementTable, outcome.err,
                           calls[|old(calls)|..])
    {
      match announced {
        case Str(a) =>
          announcementIPs := [a];
        case List(items) =>
          var ips := StringsOf(items);
          if ips.None? {
            return Panicked;
          }
          announcementIPs := ips.value;
        case _ =>
          return AnnounceUnrecognised;
      }
      everDesired := everDesired + Elems(announcementIPs);
      var err := EnsureBGP();
      outcome := Ensured(err);
    }

    /** One iteration of the watch loop in `EnsureIPs`, given the snapshot's
        custom data: take a new MD5 password and ASN if present, then, when
        `BGP_ANNOUNCE` has a recognised shape, adopt it and run `EnsureBGP`. */
    method HandleSnapshot(data: map<string, Value>) returns (outcome: SnapshotOutcome)
      requires Valid()
      modifies this
      ensures Valid()
      ensures "MD5_PASSWORD" in data && !data["MD5_PASSWORD"].Str? ==>
                outcome == Panicked && unchanged(this)
      ensures !("MD5_PASSWORD" in data && !data["MD5_PASSWORD"].Str?) ==>
                md5Password == (if "MD5_PASSWORD" in data then data["MD5_PASSWORD"].s else old(md5Password)) &&
                asn == (if "ASN" in data then DecodeASN(data["ASN"]) else old(asn))
      ensures outcome == AnnounceUnset <==>
                !("MD5_PASSWORD" in data && !data["MD5_PASSWORD"].Str?) && "BGP_ANNOUNCE" !in data
      ensures outcome == AnnounceUnrecognised <==>
                !("MD5_PASSWORD" in data && !data["MD5_PASSWORD"].Str?) && "BGP_ANNOUNCE" in data &&
                !data["BGP_ANNOUNCE"].Str? && !data["BGP_ANNOUNCE"].List?
      ensures outcome == Panicked <==>
                ("MD5_PASSWORD" in data && !data["MD5_PASSWORD"].Str?) ||
                ("BGP_ANNOUNCE" in data && data["BGP_ANNOUNCE"].List? &&
                 exists i :: 0 <= i < |data["BGP_ANNOUNCE"].items| && !data["BGP_ANNOUNCE"].items[i].Str?)
      ensures everDesired == old(everDesired) + (if outcome.Ensured? then Elems(announcementIPs) else {})
      ensures !outcome.Ensured? ==>
                announcementIPs == old(announcementIPs) && announcementTable == old(announcementTable) &&
                calls == old(calls)
      ensures outcome.Ensured? ==>
                "BGP_ANNOUNCE" in data && DecodesTo(data["BGP_ANNOUNCE"], announcementIPs) &&
                |old(calls)| <= |calls| && calls[..|old(calls)|] == old(calls) &&
                Reconciled(old(announcementTable), announcementIPs, env, announcementTable, outcome.err,
                           calls[|old(calls)|..])
    {
      if "MD5_PASSWORD" in data {
        var newMD5 := data["MD5_PASSWORD"];
        if !newMD5.Str? {
          return Panicked;
        }
        if newMD5.s != md5Password {
          md5Password := newMD5.s;
        }
      }

      var ok := "ASN" in data;
      var newASN: uint32 := if ok then DecodeASN(data["ASN"]) else 0;
      if ok && newASN != asn {
        asn := newASN;
      }

      if "BGP_ANNOUNCE" !in data {
        return AnnounceUnset;
      }
      outcome := AdoptAnnouncement(data["BGP_ANNOUNCE"]);
    }
  }

  /** `NewPacketBGPAgent`: pick the private address, parse the ASN, start the
      BGP server and add the single neighbor, failing with the first error;
      on success the agent starts with nothing desired and an empty table.
      `metadata` is the result of fetching the instance metadata. */
  method NewPacketBGPAgent(env: Environment, metadata: Result<seq<AddressInfo>>,
                           md5Password: string, asn: string)
    returns (agent: PacketBGPAgent?, err: Option<Error>)
    ensures agent == null <==> err.Some?
    ensures GetPrivateIP(metadata).Err? ==> err == Some(GetPrivateIP(metadata).error)
    ensures GetPrivateIP(metadata).Ok? && !(IsDecimal(asn) && DecimalValue(asn) <= MaxUint32 as int) ==>
              err == ParseUint32(asn).err
    ensures GetPrivateIP(metadata).Ok? && IsDecimal(asn) && DecimalValue(asn) <= MaxUint32 as int ==>
              var gateway := GetPrivateIP(metadata).value.gateway;
              var global := GlobalConfig(DecimalValue(asn) as uint32, gateway, NoListenPort);
              var neighbor := NeighborConfig(gateway, PeerAS, md5Password);
              err == (if env.start(global).Some? then env.start(global) else env.addNeighbor(neighbor)) &&
              (agent != null ==>
                 agent.calls == [Start(global), AddNeighbor(neighbor)] &&
                 agent.asn as int == DecimalValue(asn))
    ensures agent != null ==>
              fresh(agent) && agent.Valid() && agent.env == env &&
              GetPrivateIP(metadata) == Ok(agent.privateIP) &&
              agent.md5Password == md5Password &&
              agent.announcementIPs == [] && agent.announcementTable == map[] &&
              agent.everDesired == {}
  {
    var privateIP := GetPrivateIP(metadata);
    if privateIP.Err? {
      return null, Some(privateIP.error);
    }
    var parsed := ParseUint32(asn);
    if parsed.err.Some? {
      return null, parsed.err;
    }
    var asn32 := parsed.value;
    var gateway := privateIP.value.gateway;
    var global := GlobalConfig(asn32, gateway, NoListenPort);
    var startErr := env.start(global);
    if startErr.Some? {
      return null, startErr;
    }
    var neighbor := NeighborConfig(gateway, PeerAS, md5Password);
    var neighborErr := env.addNeighbor(neighbor);
    if neighborErr.Some? {
      return null, neighborErr;
    }
    agent := new PacketBGPAgent(env, privateIP.value, md5Password, asn32, [Start(global), AddNeighbor(neighbor)]);
    err := None;
  }
}
