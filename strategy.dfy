/** The forwarding strategy's own decisions: serving requests from the SLRU
    cache and counting the misses, admitting responses through the count-min
    sketch and the θ gate, flushing access reports, and applying θ updates
    from the fog controller. */
module Strategy {
  import opened Names
  import opened Slru
  import opened Sketch
  import opened AccessReport
  import opened FogInstruction

  /** The sketch is 4 rows of 2048 counters. */
  const CMS_DEPTH: nat := 4
  const CMS_WIDTH: nat := 2048
  /** The cache holds 50 probation plus 50 protected entries. */
  const PROBATION_CAP: nat := 50
  const PROTECTED_CAP: nat := 50

  /** A Data packet: its name and its content block. */
  datatype Packet = Packet(name: Name, content: Content)

  /** Names under `/fog/instruction` carry θ updates, not content. */
  predicate IsFogInstruction(name: Name)
  {
    |name| >= 2 && name[..2] == ["fog", "instruction"]
  }

  /** The θ in force for `name`: its table entry, else the default. */
  function ThetaFor(table: map<Name, Theta>, name: Name): Theta
  {
    if name in table then table[name] else DEFAULT_THETA
  }

  /** The draw `u` passes the admission gate of probability θ. */
  predicate Drawn(u: real, theta: Theta)
  {
    u < theta as real / THETA_SCALE as real
  }

  /** Which way a response went through `beforeSatisfyInterest`. */
  datatype Admission =
    | ControlMessage      // a θ update, neither counted nor cached
    | NotDrawn            // the θ gate said no
    | AdmittedWithRoom    // cached, the cache had room
    | AdmittedOverVictim  // cached, it outscored the victim
    | VictimKept          // the cache was full and the victim scored at least as high

  class CustomStrategy {
    const cms: CountMinSketch
    const slru: SlruCache<Packet>
    /** Per-name request counts for the access report. */
    var accessCounter: Counters
    /** Per-name admission probability set by the fog controller. */
    var thetaCache: map<Name, Theta>
    /** How many report flushes have been scheduled so far. */
    var reportsScheduled: nat

    ghost predicate Valid()
      reads this, cms, cms.table, cms.seed, slru
    {
      && cms.Valid() && slru.Valid() && CountersValid(accessCounter)
      && cms.depth == CMS_DEPTH && cms.width == CMS_WIDTH
      && slru.capProb == PROBATION_CAP && slru.capProt == PROTECTED_CAP
    }

    /** The cache has room: the state every operation keeps. */
    predicate Roomy()
      reads this, slru
    {
      !slru.IsFull()
    }

    /** A fresh strategy: empty cache, zero sketch, no counts, no θ entries,
        and the first report scheduled. */
    constructor (hash: Name -> u64)
      ensures Valid() && Roomy()
      ensures fresh(cms) && fresh(cms.table) && fresh(cms.seed) && fresh(slru)
      ensures cms.hash == hash && cms.history == [] && slru.store == map[]
      ensures accessCounter == map[] && thetaCache == map[] && reportsScheduled == 1
    {
      cms := new CountMinSketch(CMS_DEPTH, CMS_WIDTH, hash);
      slru := new SlruCache(PROBATION_CAP, PROTECTED_CAP);
      accessCounter := map[];
      thetaCache := map[];
      reportsScheduled := 1;
    }

    /** A request: a cached name is served and touched without being
        counted; any other name has its total raised by one. */
    method AfterReceiveInterest(name: Name) returns (served: Option<Packet>)
      requires Valid()
      modifies this, slru
      ensures Valid()
      ensures old(slru.Contains(name)) ==>
        && served == Some(old(slru.store[name].data))
        && slru.Segs() == Touch(old(slru.Segs()), name, PROTECTED_CAP)
        && slru.StoredData() == old(slru.StoredData())
        && accessCounter == old(accessCounter)
      ensures !old(slru.Contains(name)) ==>
        && served == None
        && slru.Segs() == old(slru.Segs()) && slru.store == old(slru.store)
        && accessCounter == Counted(old(accessCounter), name)
      ensures thetaCache == old(thetaCache) && reportsScheduled == old(reportsScheduled)
      ensures old(Roomy()) ==> Roomy()
    {
      if slru.Contains(name) {
        served := slru.Fetch(name);
        return;
      }
      var info := if name in accessCounter then accessCounter[name] else AccessInfo(0, 0);
      accessCounter := accessCounter[name := info.(total := info.total + 1)];
      served := None;
    }

    /** A response: θ updates go to the decoder; any other Data is counted in
        the sketch, passed through the θ gate with the draw `u`, and cached
        if the cache has room or it outscores the cache's victim. */
    method BeforeSatisfyInterest(data: Packet, u: real) returns (decision: Admission)
      requires Valid()
      modifies this, slru, cms, cms.table
      ensures Valid()
      ensures accessCounter == old(accessCounter) && reportsScheduled == old(reportsScheduled)
      ensures IsFogInstruction(data.name) ==>
        && decision == ControlMessage
        && thetaCache == Decode(old(thetaCache), data.content).table
        && cms.history == old(cms.history) && slru.store == old(slru.store) && slru.Segs() == old(slru.Segs())
      ensures !IsFogInstruction(data.name) ==>
        && thetaCache == old(thetaCache)
        && cms.history == old(cms.history) + [data.name]
        && (decision == NotDrawn <==> !Drawn(u, ThetaFor(old(thetaCache), data.name)))
        && (decision == AdmittedWithRoom <==> Drawn(u, ThetaFor(old(thetaCache), data.name)) && old(Roomy()))
        && (decision == AdmittedOverVictim <==>
              Drawn(u, ThetaFor(old(thetaCache), data.name)) && !old(Roomy())
              && cms.EstimateOf(old(slru.SelectVictim())) < cms.EstimateOf(data.name))
        && decision != ControlMessage
      ensures decision == AdmittedWithRoom || decision == AdmittedOverVictim ==>
        && slru.Segs() == AfterInsert(old(slru.Segs()), data.name, PROBATION_CAP, PROTECTED_CAP)
        && data.name in slru.store && slru.store[data.name].data == data
        && OthersKept(old(slru.store), slru.store, data.name)
      ensures decision == NotDrawn || decision == VictimKept ==>
        slru.store == old(slru.store) && slru.Segs() == old(slru.Segs())
      ensures old(Roomy()) ==> Roomy() && decision != AdmittedOverVictim && decision != VictimKept
    {
      var name := data.name;
      if IsFogInstruction(name) {
        var outcome := ReceiveFogInstruction(data.content);
        return ControlMessage;
      }
      decision := Admit(data, u);
    }

    /** Steps 2 and 3 of a response that is not a θ update: count it, then
        gate it with θ. */
    method Admit(data: Packet, u: real) returns (decision: Admission)
      requires Valid()
      modifies slru, cms, cms.table
      ensures Valid()
      ensures cms.history == old(cms.history) + [data.name]
      ensures decision == NotDrawn <==> !Drawn(u, ThetaFor(thetaCache, data.name))
      ensures decision == AdmittedWithRoom <==> Drawn(u, ThetaFor(thetaCache, data.name)) && old(Roomy())
      ensures decision == AdmittedOverVictim <==>
                Drawn(u, ThetaFor(thetaCache, data.name)) && !old(Roomy())
                && cms.EstimateOf(old(slru.SelectVictim())) < cms.EstimateOf(data.name)
      ensures decision != ControlMessage
      ensures decision == AdmittedWithRoom || decision == AdmittedOverVictim ==>
        && slru.Segs() == AfterInsert(old(slru.Segs()), data.name, PROBATION_CAP, PROTECTED_CAP)
        && data.name in slru.store && slru.store[data.name].data == data
        && OthersKept(old(slru.store), slru.store, data.name)
      ensures decision == NotDrawn || decision == VictimKept ==>
        slru.store == old(slru.store) && slru.Segs() == old(slru.Segs())
      ensures old(Roomy()) ==> Roomy() && decision != AdmittedOverVictim && decision != VictimKept
    {
      var name := data.name;
      Count(name);
      if !Drawn(u, ThetaFor(thetaCache, name)) {
        return NotDrawn;
      }
      decision := Place(data);
    }

    /** Step 2: `m_cms.increment(name)`; the cache is left alone. */
    method Count(name: Name)
      requires Valid()
      modifies cms, cms.table
      ensures Valid() && cms.history == old(cms.history) + [name]
    {
      cms.Increment(name);
    }

    /** Step 4: with room, cache the Data; when full, cache it only if the
        victim's estimate is strictly below its own. */
    method Place(data: Packet) returns (decision: Admission)
      requires Valid()
      modifies slru
      ensures Valid()
      ensures decision == AdmittedWithRoom <==> old(Roomy())
      ensures decision == AdmittedOverVictim <==>
                !old(Roomy()) && cms.EstimateOf(old(slru.SelectVictim())) < cms.EstimateOf(data.name)
      ensures decision == AdmittedWithRoom || decision == AdmittedOverVictim || decision == VictimKept
      ensures decision == AdmittedWithRoom || decision == AdmittedOverVictim ==>
        && slru.Segs() == AfterInsert(old(slru.Segs()), data.name, PROBATION_CAP, PROTECTED_CAP)
        && data.name in slru.store && slru.store[data.name].data == data
        && OthersKept(old(slru.store), slru.store, data.name)
      ensures decision == VictimKept ==> slru.store == old(slru.store) && slru.Segs() == old(slru.Segs())
      ensures old(Roomy()) ==> Roomy()
    {
      var est := cms.Estimate(data.name);
      if !slru.IsFull() {
        Cache(data);
        return AdmittedWithRoom;
      }
      decision := Contest(data, est);
    }

    /** The full-cache branch of step 4: the Data replaces the victim only
        when the victim's estimate `estimate(victim)` is below `est`. */
    method Contest(data: Packet, est: nat) returns (decision: Admission)
      requires Valid() && slru.IsFull() && est == cms.EstimateOf(data.name)
      modifies slru
      ensures Valid()
      ensures decision == AdmittedOverVictim <==>
                cms.EstimateOf(old(slru.SelectVictim())) < cms.EstimateOf(data.name)
      ensures decision == AdmittedOverVictim || decision == VictimKept
      ensures decision == AdmittedOverVictim ==>
        && slru.Segs() == AfterInsert(old(slru.Segs()), data.name, PROBATION_CAP, PROTECTED_CAP)
        && data.name in slru.store && slru.store[data.name].data == data
        && OthersKept(old(slru.store), slru.store, data.name)
      ensures decision == VictimKept ==> slru.store == old(slru.store) && slru.Segs() == old(slru.Segs())
    {
      var victim := slru.SelectVictim();
      var estVictim := cms.Estimate(victim);
      if estVictim < est {
        Cache(data);
        return AdmittedOverVictim;
      }
      return VictimKept;
    }

    /** `slru.insert(name, data)` on behalf of the strategy: the sketch is
        left alone, and an admitted name is in the cache afterwards. */
    method Cache(data: Packet)
      requires Valid()
      modifies slru
      ensures Valid()
      ensures slru.Segs() == AfterInsert(old(slru.Segs()), data.name, PROBATION_CAP, PROTECTED_CAP)
      ensures data.name in slru.store && slru.store[data.name].data == data
      ensures OthersKept(old(slru.store), slru.store, data.name)
      ensures old(Roomy()) ==> Roomy()
      ensures forall k :: cms.EstimateOf(k) == old(cms.EstimateOf(k))
    {
      InsertedNameStays(slru.Segs(), data.name, PROBATION_CAP, PROTECTED_CAP);
      var ok := slru.Insert(data.name, data);
      cms.EstimatesUnchanged();
    }

    /** The report flush, visiting the counters in `order` (the map's
        iteration order): every name with a nonzero delta gets a record and
        has its reported count caught up; a report goes out only when some
        record was made; the next flush is scheduled either way. */
    method SendAccessReport(order: seq<Name>) returns (payload: Option<seq<Token>>)
      requires Valid()
      requires NoDup(order) && Elems(order) == accessCounter.Keys
      modifies this
      ensures Valid()
      ensures var rs := Records(old(accessCounter), order);
        && (rs == [] ==> payload == None)
        && (rs != [] ==> payload == Some(Frame(Prepended(rs))))
      ensures accessCounter == Drained(old(accessCounter))
      ensures reportsScheduled == old(reportsScheduled) + 1
      ensures thetaCache == old(thetaCache)
    {
      var drained, buffer, nonZero := Flush(accessCounter, order);
      accessCounter := drained;
      reportsScheduled := reportsScheduled + 1;
      if nonZero == 0 {
        return None;
      }
      ghost var body := buffer;
      buffer := [VarNumber(|buffer|)] + buffer;
      buffer := [VarNumber(TLV_ACCESS_VECTOR)] + buffer;
      assert buffer == Frame(body);
      payload := Some(buffer);
    }

    /** The θ update: anything but a wire-encoded θ vector is ignored;
        otherwise each readable pair of the vector overwrites its name's θ,
        and an unreadable pair ends the update with the earlier pairs kept. */
    method ReceiveFogInstruction(content: Content) returns (outcome: Outcome)
      modifies this
      ensures thetaCache == Decode(old(thetaCache), content).table
      ensures outcome == Decode(old(thetaCache), content).outcome
      ensures accessCounter == old(accessCounter) && reportsScheduled == old(reportsScheduled)
    {
      if !content.hasWire || content.tlvType != TLV_THETA_VECTOR {
        return Ignored;
      }
      var elems := content.elements;
      var i := 0;
      while i < |elems|
        invariant 0 <= i <= |elems|
        invariant ApplyPairs(old(thetaCache), elems) == ApplyPairs(thetaCache, elems[i..])
        invariant accessCounter == old(accessCounter) && reportsScheduled == old(reportsScheduled)
      {
        var e := elems[i];
        assert elems[i..][0] == e && elems[i..][1..] == elems[i + 1..];
        if e.tlvType == TLV_THETA_PAIR {
          match ParsePair(e)
          case None =>
            return Aborted;
          case Some((name, fixed)) =>
            thetaCache := thetaCache[name := Clamp(fixed)];
        }
        i := i + 1;
      }
      return Complete;
    }
  }
}
