/** The fog controller's admission-probability update: a vector of
    `(name, fixed-point θ)` pairs, decoded into the per-name θ table.  θ is
    held in fixed point, in units of 1/10000, so `10000` is probability 1. */
module FogInstruction {
  import opened Names

  /** The record type of one `(name, θ)` pair. */
  const TLV_THETA_PAIR: nat := 0xF2
  /** The outer type of the update. */
  const TLV_THETA_VECTOR: nat := 0xF3
  /** The fixed-point unit: θ is `value / THETA_SCALE`. */
  const THETA_SCALE: nat := 10000
  /** The fallback admission probability 0.5 of names the table lacks. */
  const DEFAULT_THETA: Theta := 5000

  /** An admission probability in [0, 1], in units of 1/10000. */
  type Theta = t: nat | t <= THETA_SCALE

  /** The stored probability of a received fixed-point value:
      `clamp(fixed / 10000.0, 0.0, 1.0)`. */
  function Clamp(fixed: nat): (t: Theta)
    ensures t as real / THETA_SCALE as real ==
              if fixed as real / THETA_SCALE as real > 1.0 then 1.0
              else fixed as real / THETA_SCALE as real
  {
    if fixed > THETA_SCALE then THETA_SCALE else fixed
  }

  /** 15000 reads as probability 1, 7342 as 0.7342. */
  lemma ClampExamples()
    ensures Clamp(15000) == THETA_SCALE && Clamp(7342) == 7342
  {
  }

  /** What a nested element of a pair is, as far as the decoder cares. */
  datatype Field =
    | NameField(name: Name)    // a Name block
    | NumberField(value: nat)  // a block holding a non-negative integer
    | OtherField               // anything the decoder cannot read

  /** One element of the vector: its TLV type and, once parsed, its
      nested elements. */
  datatype Element = Element(tlvType: nat, fields: seq<Field>)

  /** The content block of a control Data packet: whether it has a wire
      encoding, its TLV-TYPE, and its elements once parsed.  The type is an
      input of the model. */
  datatype Content = Content(hasWire: bool, tlvType: nat, elements: seq<Element>)

  /** The `(name, fixed θ)` a pair element holds; `None` when reading it
      fails: a first field that is not a name, or a second that is missing
      or not a number.  Fields past the second are not looked at. */
  function ParsePair(e: Element): (p: Option<(Name, nat)>)
    ensures p.Some? <==> |e.fields| >= 2 && e.fields[0].NameField? && e.fields[1].NumberField?
  {
    if |e.fields| >= 2 && e.fields[0].NameField? && e.fields[1].NumberField? then
      Some((e.fields[0].name, e.fields[1].value))
    else None
  }

  /** How decoding ended: the whole update ignored, every element gone
      through, or stopped at an unreadable pair. */
  datatype Outcome = Ignored | Complete | Aborted

  datatype Update = Update(table: map<Name, Theta>, outcome: Outcome)

  /** The table after the decode loop runs over `elems`: elements of another
      type are skipped, each pair overwrites its name's θ, and an unreadable
      pair stops the loop with the earlier pairs already stored. */
  function ApplyPairs(table: map<Name, Theta>, elems: seq<Element>): (u: Update)
    ensures u.outcome != Ignored
    ensures table.Keys <= u.table.Keys
    decreases |elems|
  {
    if elems == [] then Update(table, Complete)
    else if elems[0].tlvType != TLV_THETA_PAIR then ApplyPairs(table, elems[1..])
    else
      match ParsePair(elems[0])
      case None => Update(table, Aborted)
      case Some((name, fixed)) => ApplyPairs(table[name := Clamp(fixed)], elems[1..])
  }

  /** `receiveFogInstruction` on a content block: anything but a wire-encoded
      θ vector is ignored; otherwise its elements are applied in order. */
  function Decode(table: map<Name, Theta>, content: Content): (u: Update)
    ensures u.outcome == Ignored <==> !content.hasWire || content.tlvType != TLV_THETA_VECTOR
    ensures u.outcome == Ignored ==> u.table == table
  {
    if !content.hasWire || content.tlvType != TLV_THETA_VECTOR then Update(table, Ignored)
    else ApplyPairs(table, content.elements)
  }

  /** The TLV-TYPE of an NDN Data packet's Content element. */
  const TLV_CONTENT: nat := 0x15

  /** A content block whose type is that of the Content element itself,
      rather than a θ vector nested inside it, is ignored whatever it holds. */
  lemma ContentElementIgnored(table: map<Name, Theta>, content: Content)
    requires content.tlvType == TLV_CONTENT
    ensures Decode(table, content) == Update(table, Ignored)
  {
  }

  /** The pairs the decoder stores, in order: the readable pair elements up
      to the first unreadable one. */
  function StoredPairs(elems: seq<Element>): seq<(Name, nat)>
  {
    if elems == [] then []
    else if elems[0].tlvType != TLV_THETA_PAIR then StoredPairs(elems[1..])
    else
      match ParsePair(elems[0])
      case None => []
      case Some(p) => [p] + StoredPairs(elems[1..])
  }

  /** Whether some pair element of `elems` cannot be read. */
  predicate HasUnreadablePair(elems: seq<Element>)
  {
    exists i :: 0 <= i < |elems| && elems[i].tlvType == TLV_THETA_PAIR && ParsePair(elems[i]).None?
  }

  /** The fixed θ of the last pair in `ps` that names `name`. */
  function LastFor(ps: seq<(Name, nat)>, name: Name): Option<nat>
  {
    if ps == [] then None
    else if ps[|ps| - 1].0 == name then Some(ps[|ps| - 1].1)
    else LastFor(ps[..|ps| - 1], name)
  }

  /** Decoding stores, for every name, the clamped θ of the last readable
      pair naming it, keeps the old θ of every name no pair names, and aborts
      exactly when some pair element cannot be read. */
  lemma {:induction false} ApplyPairsLastWins(table: map<Name, Theta>, elems: seq<Element>, name: Name)
    ensures var u := ApplyPairs(table, elems);
      && (u.outcome == Aborted <==> HasUnreadablePair(elems))
      && (name in u.table <==> name in table || LastFor(StoredPairs(elems), name).Some?)
      && (name in u.table ==>
            u.table[name] == match LastFor(StoredPairs(elems), name)
                             case Some(f) => Clamp(f)
                             case None => table[name])
    decreases |elems|
  {
    if elems != [] {
      var e := elems[0];
      assert forall i :: 1 <= i < |elems| ==> elems[1..][i - 1] == elems[i];
      if e.tlvType != TLV_THETA_PAIR {
        ApplyPairsLastWins(table, elems[1..], name);
        assert HasUnreadablePair(elems) <==> HasUnreadablePair(elems[1..]) by {
          if HasUnreadablePair(elems) {
            var i :| 0 <= i < |elems| && elems[i].tlvType == TLV_THETA_PAIR && ParsePair(elems[i]).None?;
            assert elems[1..][i - 1] == elems[i];
          }
        }
      } else if ParsePair(e).None? {
        assert HasUnreadablePair(elems);
      } else {
        var p := ParsePair(e).value;
        ApplyPairsLastWins(table[p.0 := Clamp(p.1)], elems[1..], name);
        assert HasUnreadablePair(elems) <==> HasUnreadablePair(elems[1..]) by {
          if HasUnreadablePair(elems) {
            var i :| 0 <= i < |elems| && elems[i].tlvType == TLV_THETA_PAIR && ParsePair(elems[i]).None?;
            assert i != 0;
            assert elems[1..][i - 1] == elems[i];
          }
        }
        LastForCons(p, StoredPairs(elems[1..]), name);
      }
    }
  }

  /** Looking up the last pair of `[p] + ps`: a later pair in `ps` wins, and
      `p` counts only when `ps` does not name `name`. */
  lemma {:induction false} LastForCons(p: (Name, nat), ps: seq<(Name, nat)>, name: Name)
    ensures LastFor([p] + ps, name) ==
              if LastFor(ps, name).Some? then LastFor(ps, name)
              else if p.0 == name then Some(p.1) else None
  {
    if ps != [] {
      var init := ps[..|ps| - 1];
      LastForCons(p, init, name);
      assert ([p] + ps)[..|[p] + ps| - 1] == [p] + init;
    }
  }
}
