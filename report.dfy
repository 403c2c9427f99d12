/** The per-name access accounting of the strategy and the access report it
    flushes: one record per name whose count moved since the last report,
    framed as an access vector. */
module AccessReport {
  import opened Names

  /** The record type of one `(name, delta)` pair. */
  const TLV_ACCESS_DELTA: nat := 0xF0
  /** The outer type of the report. */
  const TLV_ACCESS_VECTOR: nat := 0xF1

  /** Requests seen for one name, and the count at the last report. */
  datatype AccessInfo = AccessInfo(total: nat, last: nat)

  type Counters = map<Name, AccessInfo>

  /** The reported count never runs ahead of the count seen. */
  predicate CountersValid(c: Counters)
  {
    forall k :: k in c ==> c[k].last <= c[k].total
  }

  /** The counters after `++m_accessCounter[name].total`, an absent name
      entering at zero first. */
  function Counted(c: Counters, name: Name): (r: Counters)
    ensures r.Keys == c.Keys + {name}
    ensures CountersValid(c) ==> CountersValid(r)
  {
    var info := if name in c then c[name] else AccessInfo(0, 0);
    c[name := info.(total := info.total + 1)]
  }

  /** Counting a request raises that name's total by one, keeps what was
      last reported for it, and touches no other name. */
  lemma CountedFacts(c: Counters, name: Name)
    ensures var r := Counted(c, name);
      && name in r
      && r[name].total == (if name in c then c[name].total else 0) + 1
      && r[name].last == (if name in c then c[name].last else 0)
      && forall k :: k in c && k != name ==> r[k] == c[k]
  {
  }

  /** One `(name, delta)` record of the report. */
  datatype Record = Record(name: Name, delta: nat)

  /** The records the flush loop produces when it visits `order`, in visit
      order: one per name whose total moved past its last reported count. */
  function Records(c: Counters, order: seq<Name>): seq<Record>
  {
    if order == [] then []
    else
      var k := order[|order| - 1];
      Records(c, order[..|order| - 1])
        + (if k in c && c[k].last < c[k].total then [Record(k, c[k].total - c[k].last)] else [])
  }

  /** A record is produced exactly for the visited names with a nonzero
      delta, and carries that delta. */
  lemma {:induction false} RecordsExactly(c: Counters, order: seq<Name>, r: Record)
    ensures r in Records(c, order) <==>
              r.name in order && r.name in c && r.delta != 0 && r.delta + c[r.name].last == c[r.name].total
  {
    if order != [] {
      var init := order[..|order| - 1];
      RecordsExactly(c, init, r);
      assert order == init + [order[|order| - 1]];
    }
  }

  /** Every name is reported at most once per flush. */
  lemma {:induction false} RecordsNamesDistinct(c: Counters, order: seq<Name>)
    requires NoDup(order)
    ensures forall i, j :: 0 <= i < j < |Records(c, order)| ==>
              Records(c, order)[i].name != Records(c, order)[j].name
  {
    if order != [] {
      var init := order[..|order| - 1];
      var k := order[|order| - 1];
      assert NoDup(init);
      RecordsNamesDistinct(c, init);
      forall r | r in Records(c, init) ensures r.name != k {
        RecordsExactly(c, init, r);
        assert k !in init by {
          forall i | 0 <= i < |init| ensures init[i] != k { assert init[i] == order[i]; }
        }
      }
    }
  }

  /** The counters after a flush: every reported count caught up with its
      total. */
  function Drained(c: Counters): (r: Counters)
    ensures r.Keys == c.Keys && CountersValid(r)
  {
    map k | k in c :: AccessInfo(c[k].total, c[k].total)
  }

  /** A flush keeps every total, and changes a name's entry exactly when that
      name had something to report. */
  lemma DrainedFacts(c: Counters, k: Name)
    requires k in c
    ensures Drained(c)[k].total == c[k].total
    ensures Drained(c)[k] == c[k] <==> c[k].total == c[k].last
  {
  }

  /** The counters part-way through a flush: the names in `visited` have
      caught up, the others are as they were. */
  function DrainedUpTo(c: Counters, visited: seq<Name>): (r: Counters)
    ensures r.Keys == c.Keys
  {
    map k | k in c :: if k in visited then AccessInfo(c[k].total, c[k].total) else c[k]
  }

  /** Visiting one more name adds its record, if it has one. */
  lemma RecordsSnoc(c: Counters, order: seq<Name>, i: nat)
    requires i < |order|
    ensures var k := order[i];
      && (k in c && c[k].last < c[k].total ==>
            Records(c, order[..i + 1]) == Records(c, order[..i]) + [Record(k, c[k].total - c[k].last)])
      && (!(k in c && c[k].last < c[k].total) ==> Records(c, order[..i + 1]) == Records(c, order[..i]))
  {
    assert order[..i + 1][..i] == order[..i];
  }

  /** Visiting one more name catches up that name alone; before the visit
      its entry is still the original one, and a name with nothing to report
      is left as it is. */
  lemma DrainedUpToSnoc(c: Counters, order: seq<Name>, i: nat)
    requires NoDup(order) && i < |order| && order[i] in c
    ensures var k := order[i];
      && DrainedUpTo(c, order[..i])[k] == c[k]
      && DrainedUpTo(c, order[..i + 1]) == DrainedUpTo(c, order[..i])[k := AccessInfo(c[k].total, c[k].total)]
      && (c[k].last == c[k].total ==> DrainedUpTo(c, order[..i + 1]) == DrainedUpTo(c, order[..i]))
  {
    NoDupNotBefore(order, i);
    var k := order[i];
    assert forall x :: x in order[..i + 1] <==> x in order[..i] || x == k by {
      assert order[..i + 1] == order[..i] + [k];
    }
    var before := DrainedUpTo(c, order[..i]);
    if c[k].last == c[k].total {
      assert before[k := AccessInfo(c[k].total, c[k].total)] == before;
    }
  }

  /** Once every name is visited the flush has drained all counters. */
  lemma DrainedUpToAll(c: Counters, order: seq<Name>)
    requires Elems(order) == c.Keys
    ensures DrainedUpTo(c, order) == Drained(c)
  {
  }

  /** Prepending one more record puts it in front of the buffer. */
  lemma PrependedSnoc(rs: seq<Record>, r: Record)
    ensures Prepended(rs + [r]) == RecordTokens(r) + Prepended(rs)
  {
    assert (rs + [r])[..|rs|] == rs;
  }

  /** The loop of `sendAccessReport` over the counters `c`, visited in
      `order`: catches every reported count up with its total and prepends
      one record per name with a nonzero delta. */
  method Flush(c: Counters, order: seq<Name>) returns (drained: Counters, buffer: seq<Token>, nonZero: nat)
    requires CountersValid(c) && NoDup(order) && Elems(order) == c.Keys
    ensures drained == Drained(c)
    ensures buffer == Prepended(Records(c, order))
    ensures nonZero == |Records(c, order)|
  {
    drained := c;
    buffer := [];
    nonZero := 0;
    var i := 0;
    while i < |order|
      invariant 0 <= i <= |order|
      invariant drained == DrainedUpTo(c, order[..i])
      invariant buffer == Prepended(Records(c, order[..i]))
      invariant nonZero == |Records(c, order[..i])|
    {
      drained, buffer, nonZero := FlushEntry(c, order, i, drained, buffer, nonZero);
      i := i + 1;
    }
    FlushComplete(c, order);
  }

  /** After the last visit the loop's partial state is the whole flush. */
  lemma FlushComplete(c: Counters, order: seq<Name>)
    requires Elems(order) == c.Keys
    ensures DrainedUpTo(c, order[..|order|]) == Drained(c)
    ensures Records(c, order[..|order|]) == Records(c, order)
  {
    assert order[..|order|] == order;
    DrainedUpToAll(c, order);
  }

  /** One pass of the flush loop, on the entry of `order[i]`: a nonzero
      delta is counted, the entry catches up, and its record is prepended. */
  method FlushEntry(c: Counters, order: seq<Name>, i: nat, drained: Counters, buffer: seq<Token>, nonZero: nat)
    returns (drained': Counters, buffer': seq<Token>, nonZero': nat)
    requires CountersValid(c) && NoDup(order) && Elems(order) == c.Keys && i < |order|
    requires drained == DrainedUpTo(c, order[..i])
    requires buffer == Prepended(Records(c, order[..i]))
    requires nonZero == |Records(c, order[..i])|
    ensures drained' == DrainedUpTo(c, order[..i + 1])
    ensures buffer' == Prepended(Records(c, order[..i + 1]))
    ensures nonZero' == |Records(c, order[..i + 1])|
  {
    var name := order[i];
    RecordsSnoc(c, order, i);
    DrainedUpToSnoc(c, order, i);
    ghost var rs, rs' := Records(c, order[..i]), Records(c, order[..i + 1]);
    var info := drained[name];
    var delta := info.total - info.last;
    if delta != 0 {
      nonZero' := nonZero + 1;
      drained' := drained[name := info.(last := info.total)];
      assert rs' == rs + [Record(name, delta)];
      PrependedSnoc(rs, Record(name, delta));
      buffer' := RecordTokens(Record(name, delta)) + buffer;
    } else {
      nonZero', drained', buffer' := nonZero, drained, buffer;
    }
  }

  /** A flush straight after a flush reports nothing. */
  lemma {:induction false} DrainedReportsNothing(c: Counters, order: seq<Name>)
    ensures Records(Drained(c), order) == []
  {
    if order != [] {
      DrainedReportsNothing(c, order[..|order| - 1]);
    }
  }

  /** Two flushes over three names with totals 5, 5, 5 and then 5, 7, 5: the
      second flush reports the middle name alone, with delta 2. */
  lemma SecondFlushReportsOnlyMovedName(a: Name, b: Name, d: Name)
    requires a != b && b != d && a != d
    ensures var first := map[a := AccessInfo(5, 0), b := AccessInfo(5, 0), d := AccessInfo(5, 0)];
      var drained := Drained(first);
      var later := Counted(Counted(drained, b), b);
      && Records(first, [a, b, d]) == [Record(a, 5), Record(b, 5), Record(d, 5)]
      && Records(later, [a, b, d]) == [Record(b, 2)]
  {
    var first := map[a := AccessInfo(5, 0), b := AccessInfo(5, 0), d := AccessInfo(5, 0)];
    ExampleRecords(first, a, b, d, 0, 0, 0);
    var drained := Drained(first);
    assert drained == map[a := AccessInfo(5, 5), b := AccessInfo(5, 5), d := AccessInfo(5, 5)];
    var later := Counted(Counted(drained, b), b);
    assert later == map[a := AccessInfo(5, 5), b := AccessInfo(7, 5), d := AccessInfo(5, 5)];
    ExampleRecords(later, a, b, d, 5, 5, 5);
  }

  /** The records of three names visited in order, each with its own
      `last` count. */
  lemma ExampleRecords(c: Counters, a: Name, b: Name, d: Name, la: nat, lb: nat, ld: nat)
    requires a in c && b in c && d in c
    requires c[a].last == la && c[b].last == lb && c[d].last == ld
    ensures Records(c, [a, b, d]) ==
              (if la < c[a].total then [Record(a, c[a].total - la)] else [])
              + (if lb < c[b].total then [Record(b, c[b].total - lb)] else [])
              + (if ld < c[d].total then [Record(d, c[d].total - ld)] else [])
  {
    assert [a, b, d][..2] == [a, b] && [a, b][..1] == [a] && [a][..0] == [];
    var ra := if la < c[a].total then [Record(a, c[a].total - la)] else [];
    var rb := if lb < c[b].total then [Record(b, c[b].total - lb)] else [];
    assert Records(c, [a]) == ra;
    assert Records(c, [a, b]) == ra + rb;
  }

  /** The abstract wire tokens: a VAR-NUMBER, or the wire encoding of a name. */
  datatype Token = VarNumber(n: nat) | NameWire(name: Name)

  /** One record as it reads in the buffer: the name, the record type, the
      delta. */
  function RecordTokens(r: Record): seq<Token>
  {
    [NameWire(r.name), VarNumber(TLV_ACCESS_DELTA), VarNumber(r.delta)]
  }

  /** Records laid out one after the other. */
  function Encode(rs: seq<Record>): seq<Token>
  {
    if rs == [] then [] else RecordTokens(rs[0]) + Encode(rs[1..])
  }

  function Reverse<T>(s: seq<T>): (r: seq<T>)
    ensures |r| == |s|
    ensures forall i :: 0 <= i < |s| ==> r[i] == s[|s| - 1 - i]
  {
    if s == [] then [] else Reverse(s[1..]) + [s[0]]
  }

  /** The buffer after prepending the records of `rs` in turn, each one in
      front of all earlier ones. */
  function Prepended(rs: seq<Record>): seq<Token>
  {
    if rs == [] then [] else RecordTokens(rs[|rs| - 1]) + Prepended(rs[..|rs| - 1])
  }

  /** Building by prepending lays the records out in reverse visit order. */
  lemma {:induction false} PrependedIsReversed(rs: seq<Record>)
    ensures Prepended(rs) == Encode(Reverse(rs))
  {
    if rs != [] {
      var init, x := rs[..|rs| - 1], rs[|rs| - 1];
      PrependedIsReversed(init);
      assert Reverse(rs) == [x] + Reverse(init);
      assert ([x] + Reverse(init))[1..] == Reverse(init);
    }
  }

  /** The report payload: the vector type, the body length, the body.  The
      length counts body tokens. */
  function Frame(body: seq<Token>): seq<Token>
  {
    [VarNumber(TLV_ACCESS_VECTOR), VarNumber(|body|)] + body
  }

  /** Reads a body back as records; `None` on anything that is not a
      sequence of `name, 0xF0, delta` triples. */
  function DecodeBody(ts: seq<Token>): Option<seq<Record>>
  {
    if ts == [] then Some([])
    else if |ts| >= 3 && ts[0].NameWire? && ts[1] == VarNumber(TLV_ACCESS_DELTA) && ts[2].VarNumber? then
      match DecodeBody(ts[3..])
      case Some(rs) => Some([Record(ts[0].name, ts[2].n)] + rs)
      case None => None
    else None
  }

  /** Reads a report: the vector type, a length matching the rest, a body. */
  function DecodeReport(ts: seq<Token>): Option<seq<Record>>
  {
    if |ts| >= 2 && ts[0] == VarNumber(TLV_ACCESS_VECTOR) && ts[1] == VarNumber(|ts| - 2) then
      DecodeBody(ts[2..])
    else None
  }

  lemma {:induction false} DecodeEncode(rs: seq<Record>)
    ensures DecodeBody(Encode(rs)) == Some(rs)
  {
    if rs != [] {
      DecodeEncode(rs[1..]);
      assert Encode(rs)[3..] == Encode(rs[1..]);
      assert [rs[0]] + rs[1..] == rs;
    }
  }

  /** A receiver of the report recovers exactly the records, in reverse
      visit order. */
  lemma ReportRoundTrip(rs: seq<Record>)
    ensures DecodeReport(Frame(Prepended(rs))) == Some(Reverse(rs))
  {
    PrependedIsReversed(rs);
    DecodeEncode(Reverse(rs));
    assert Frame(Prepended(rs))[2..] == Prepended(rs);
  }
}
