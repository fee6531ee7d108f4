/**
 * The redaction policy applied to metadata packets that a player receives
 * about itself: which metadata indices are dropped outright, which bits of a
 * flag byte are stripped, and the two switches for attribute packets and the
 * elytra-stop transition.
 */
module MetaFilter {

  /** Stands for a Java reference that may be null. */
  datatype Option<+T> = None | Some(value: T)

  /** The value of one metadata entry: a flag byte, or any other typed value. */
  datatype Value = ByteV(flags: bv8) | Opaque(tag: int)

  /** The entries of one metadata packet, by metadata index. */
  type Entries = map<int, Value>

  /** The configuration of a filter, as a value. */
  datatype Policy = Policy(
    suppressedIndices: set<int>,
    suppressedBits: map<int, bv8>,
    suppressAttributes: bool,
    filterElytraStop: bool)

  /** Metadata index of the entity flag byte. */
  const ENTITY_FLAGS: int := 0
  /** Bit of the entity flag byte that says the entity is crouching. */
  const CROUCHING_BIT: bv8 := 0x02
  /** Bit of the entity flag byte that says the entity is sprinting. */
  const SPRINTING_BIT: bv8 := 0x08
  /** Metadata index of the pose (the framework's constant). */
  const POSE: int := 6
  /** Metadata index of the living-entity flags: eating, blocking, drawing a bow (the framework's constant). */
  const LIVING_ENTITY_FLAGS: int := 8

  /** A freshly constructed filter: nothing suppressed, both switches off. */
  function EmptyPolicy(): Policy {
    Policy({}, map[], false, false)
  }

  /** The mask registered at an index, or 0 when none is (getOrDefault). */
  function RegisteredMask(bits: map<int, bv8>, index: int): bv8 {
    if index in bits then bits[index] else 0
  }

  /** The policy after suppressing a whole index. */
  function WithIndex(p: Policy, index: int): (q: Policy)
    ensures q.suppressedIndices == p.suppressedIndices + {index}
    ensures q.suppressedBits == p.suppressedBits
    ensures q.suppressAttributes == p.suppressAttributes && q.filterElytraStop == p.filterElytraStop
  {
    p.(suppressedIndices := p.suppressedIndices + {index})
  }

  /** The policy after suppressing some bits at an index: the mask is ORed into any mask already registered there. */
  function WithBit(p: Policy, index: int, mask: bv8): (q: Policy)
    ensures q.suppressedBits.Keys == p.suppressedBits.Keys + {index}
    ensures q.suppressedBits[index] == RegisteredMask(p.suppressedBits, index) | mask
    ensures forall i :: i in p.suppressedBits && i != index ==> q.suppressedBits[i] == p.suppressedBits[i]
    ensures q.suppressedIndices == p.suppressedIndices
    ensures q.suppressAttributes == p.suppressAttributes && q.filterElytraStop == p.filterElytraStop
  {
    p.(suppressedBits := p.suppressedBits[index := RegisteredMask(p.suppressedBits, index) | mask])
  }

  /**
   * The default player filter: crouching and sprinting bits of the flag
   * byte, the pose and the living-entity flags in full, and attribute echoes.
   */
  function DefaultPolicy(): Policy {
    Policy({POSE, LIVING_ENTITY_FLAGS}, map[ENTITY_FLAGS := CROUCHING_BIT | SPRINTING_BIT], true, false)
  }

  /** The bits of a flag byte that the server owns once the mask is stripped. */
  function ServerOnly(flags: bv8, mask: bv8): bv8 {
    flags & !mask
  }

  /** The bit rule applies: the index has a mask and the value is a byte. It is tried first. */
  predicate BitRuleApplies(p: Policy, index: int, v: Value) {
    index in p.suppressedBits && v.ByteV?
  }

  /** The entry triggers some rule, so the filter must produce a copy. */
  predicate Matches(p: Policy, index: int, v: Value) {
    BitRuleApplies(p, index, v) || index in p.suppressedIndices
  }

  /** Whether an entry is still present once the rules are applied. */
  predicate Survives(p: Policy, index: int, v: Value) {
    if BitRuleApplies(p, index, v) then ServerOnly(v.flags, p.suppressedBits[index]) != 0
    else index !in p.suppressedIndices
  }

  /** The value an entry carries once the rules are applied (when it survives). */
  function Redacted(p: Policy, index: int, v: Value): Value {
    if BitRuleApplies(p, index, v) then ByteV(ServerOnly(v.flags, p.suppressedBits[index])) else v
  }

  /** All rules applied to every entry. */
  function Redact(p: Policy, entries: Entries): Entries {
    map index | index in entries && Survives(p, index, entries[index]) :: Redacted(p, index, entries[index])
  }

  /** Some entry triggers a rule. */
  predicate AnyMatch(p: Policy, entries: Entries) {
    exists index :: index in entries && Matches(p, index, entries[index])
  }

  /** What the filter answers: None ("send the original"), or the redacted copy. */
  function Filtered(p: Policy, entries: Entries): Option<Entries> {
    if AnyMatch(p, entries) then Some(Redact(p, entries)) else None
  }

  /** What the player ends up seeing: the copy, or the original when the filter answered None. */
  function Effective(p: Policy, entries: Entries): Entries {
    match Filtered(p, entries)
    case None => entries
    case Some(m) => m
  }

  /** Nothing left in the map that the filter would strip or drop. */
  ghost predicate Clean(p: Policy, entries: Entries) {
    forall index :: index in entries ==>
      Survives(p, index, entries[index]) && Redacted(p, index, entries[index]) == entries[index]
  }

  // ---------------------------------------------------------------------------
  // Properties of the filter specification
  // ---------------------------------------------------------------------------

  /** The filter answers None exactly when no entry triggers a rule. */
  lemma NullIffNoMatch(p: Policy, entries: Entries)
    ensures Filtered(p, entries).None? <==>
      forall index :: index in entries ==>
        !(index in p.suppressedBits && entries[index].ByteV?) && index !in p.suppressedIndices
  {
  }

  /**
   * A byte at a masked index keeps only its server bits; when none remain the
   * index is absent, and it is never present with value 0.
   */
  lemma MaskedByte(p: Policy, entries: Entries, index: int)
    requires index in entries && index in p.suppressedBits && entries[index].ByteV?
    ensures Filtered(p, entries).Some?
    ensures var r := Filtered(p, entries).value;
      var rest := entries[index].flags & !p.suppressedBits[index];
      && (rest != 0 ==> index in r && r[index] == ByteV(rest))
      && (rest == 0 ==> index !in r)
      && (index in r ==> r[index] != ByteV(0))
  {
    var v := entries[index];
    assert Matches(p, index, v);
    assert v.flags & !p.suppressedBits[index] == ServerOnly(v.flags, p.suppressedBits[index]);
  }

  /** A fully suppressed index is absent from the copy unless the bit rule applies to it. */
  lemma SuppressedIndexDropped(p: Policy, entries: Entries, index: int)
    requires index in entries && index in p.suppressedIndices
    requires !(index in p.suppressedBits && entries[index].ByteV?)
    ensures Filtered(p, entries).Some? && index !in Filtered(p, entries).value
  {
  }

  /**
   * Bit rule before index rule: for a byte the mask decides even when the
   * index is also fully suppressed; any other value at a masked index falls
   * through to the index rule, and passes unchanged when that does not fire.
   */
  lemma BitRuleFirst(p: Policy, entries: Entries, index: int)
    requires index in entries && index in p.suppressedBits
    ensures entries[index].ByteV? ==>
      var rest := entries[index].flags & !p.suppressedBits[index];
      Filtered(p, entries).Some? && (index in Filtered(p, entries).value <==> rest != 0)
    ensures !entries[index].ByteV? && index in p.suppressedIndices ==>
      Filtered(p, entries).Some? && index !in Filtered(p, entries).value
    ensures !entries[index].ByteV? && index !in p.suppressedIndices ==>
      index in Effective(p, entries) && Effective(p, entries)[index] == entries[index]
  {
  }

  /** Entries that trigger no rule are copied unchanged, and no key is invented. */
  lemma UntouchedEntries(p: Policy, entries: Entries)
    ensures Effective(p, entries).Keys <= entries.Keys
    ensures forall index :: index in entries && !Matches(p, index, entries[index]) ==>
      index in Effective(p, entries) && Effective(p, entries)[index] == entries[index]
  {
  }

  /** Whatever the filter lets through is clean. */
  lemma EffectiveIsClean(p: Policy, entries: Entries)
    ensures Clean(p, Effective(p, entries))
  {
    var r := Effective(p, entries);
    forall index | index in r
      ensures Survives(p, index, r[index]) && Redacted(p, index, r[index]) == r[index]
    {
      if AnyMatch(p, entries) {
        var v := entries[index];
        if BitRuleApplies(p, index, v) {
          var m := p.suppressedBits[index];
          assert r[index] == ByteV(v.flags & !m);
          assert (v.flags & !m) & !m == v.flags & !m;
        }
      } else {
        assert !Matches(p, index, entries[index]);
      }
    }
  }

  /** A clean map is its own effective output. */
  lemma CleanIsFixed(p: Policy, entries: Entries)
    requires Clean(p, entries)
    ensures Effective(p, entries) == entries
  {
    if AnyMatch(p, entries) {
      var r := Redact(p, entries);
      assert r.Keys == entries.Keys;
      forall index | index in r ensures r[index] == entries[index] {
      }
    }
  }

  /** Filtering the effective output again changes nothing. */
  lemma FilterIdempotent(p: Policy, entries: Entries)
    ensures Effective(p, Effective(p, entries)) == Effective(p, entries)
  {
    EffectiveIsClean(p, entries);
    CleanIsFixed(p, Effective(p, entries));
  }

  /** The default filter strips the crouching bit and keeps the on-fire bit: {0: 0x12} becomes {0: 0x10}. */
  lemma DefaultKeepsServerBits()
    ensures Filtered(DefaultPolicy(), map[ENTITY_FLAGS := ByteV(0x12)]) == Some(map[ENTITY_FLAGS := ByteV(0x10)])
  {
    var e := map[ENTITY_FLAGS := ByteV(0x12)];
    assert Matches(DefaultPolicy(), ENTITY_FLAGS, e[ENTITY_FLAGS]);
    assert Redact(DefaultPolicy(), e) == map[ENTITY_FLAGS := ByteV(0x10)];
  }

  /** A flag byte holding only the crouching bit is dropped: {0: 0x02} gives an empty copy, not None. */
  lemma DefaultCrouchOnlyIsEmpty()
    ensures Filtered(DefaultPolicy(), map[ENTITY_FLAGS := ByteV(0x02)]) == Some(map[])
  {
    var e := map[ENTITY_FLAGS := ByteV(0x02)];
    assert Matches(DefaultPolicy(), ENTITY_FLAGS, e[ENTITY_FLAGS]);
    assert Redact(DefaultPolicy(), e) == map[];
  }

  /** A matched bit rule always yields a copy, even one equal to the input: {0: 0x10} gives Some({0: 0x10}). */
  lemma MatchedMaskAlwaysCopies()
    ensures Filtered(DefaultPolicy(), map[ENTITY_FLAGS := ByteV(0x10)]) == Some(map[ENTITY_FLAGS := ByteV(0x10)])
  {
    var e := map[ENTITY_FLAGS := ByteV(0x10)];
    assert Matches(DefaultPolicy(), ENTITY_FLAGS, e[ENTITY_FLAGS]);
    assert Redact(DefaultPolicy(), e) == e;
  }

  /** Registering masks at one index accumulates them, in either order. */
  lemma MasksAccumulate(p: Policy, index: int, a: bv8, b: bv8)
    ensures WithBit(WithBit(p, index, a), index, b) == WithBit(WithBit(p, index, b), index, a)
    ensures WithBit(WithBit(p, index, a), index, b).suppressedBits[index] ==
      RegisteredMask(p.suppressedBits, index) | a | b
  {
    var x := RegisteredMask(p.suppressedBits, index);
    assert x | a | b == x | b | a;
  }

  /** The rules applied to the entries whose index is in `done`; the others are copied as they are. */
  function Partial(p: Policy, entries: Entries, done: set<int>): Entries {
    map index | index in entries && (index in done ==> Survives(p, index, entries[index])) ::
      if index in done then Redacted(p, index, entries[index]) else entries[index]
  }

  /** Some entry whose index is in `done` triggers a rule. */
  predicate AnyMatchIn(p: Policy, entries: Entries, done: set<int>) {
    exists index :: index in done && index in entries && Matches(p, index, entries[index])
  }

  /** Applying the rules to entries that trigger none of them changes nothing. */
  lemma PartialOfUnmatched(p: Policy, entries: Entries, done: set<int>)
    requires !AnyMatchIn(p, entries, done)
    ensures Partial(p, entries, done) == entries
  {
    var r := Partial(p, entries, done);
    forall index | index in entries ensures index in r && r[index] == entries[index] {
      if index in done {
        assert !Matches(p, index, entries[index]);
      }
    }
  }

  /** Processing an entry that triggers no rule leaves the partial result as it is. */
  lemma StepUnmatched(p: Policy, entries: Entries, done: set<int>, index: int)
    requires index in entries && index !in done && !Matches(p, index, entries[index])
    ensures Partial(p, entries, done + {index}) == Partial(p, entries, done)
  {
  }

  /** Processing a byte at a masked index keeps its server bits, or removes it when none remain. */
  lemma StepMasked(p: Policy, entries: Entries, done: set<int>, index: int)
    requires index in entries && index !in done && BitRuleApplies(p, index, entries[index])
    ensures var rest := ServerOnly(entries[index].flags, p.suppressedBits[index]);
      Partial(p, entries, done + {index}) ==
        if rest != 0 then Partial(p, entries, done)[index := ByteV(rest)] else Partial(p, entries, done) - {index}
  {
    var v := entries[index];
    assert Survives(p, index, v) == (ServerOnly(v.flags, p.suppressedBits[index]) != 0);
    assert Redacted(p, index, v) == ByteV(ServerOnly(v.flags, p.suppressedBits[index]));
  }

  /** Processing a fully suppressed index (the bit rule not applying) removes it. */
  lemma StepDropped(p: Policy, entries: Entries, done: set<int>, index: int)
    requires index in entries && index !in done && index in p.suppressedIndices
    requires !BitRuleApplies(p, index, entries[index])
    ensures Partial(p, entries, done + {index}) == Partial(p, entries, done) - {index}
  {
  }

  /** Processing one more index adds a match exactly when that entry triggers a rule. */
  lemma AnyMatchStep(p: Policy, entries: Entries, done: set<int>, index: int)
    requires index in entries
    ensures AnyMatchIn(p, entries, done + {index}) == (AnyMatchIn(p, entries, done) || Matches(p, index, entries[index]))
  {
    if Matches(p, index, entries[index]) {
      assert index in done + {index};
    }
  }

  /** A non-empty key set has an element. */
  lemma SomeKey(keys: set<int>) returns (k: int)
    requires keys != {}
    ensures k in keys
  {
    if forall i :: i !in keys {
      assert false;
    }
    k :| k in keys;
  }

  /** Once every index is processed the result is the full redaction. */
  lemma PartialComplete(p: Policy, entries: Entries, done: set<int>)
    requires entries.Keys <= done
    ensures Partial(p, entries, done) == Redact(p, entries)
  {
  }

  // ---------------------------------------------------------------------------
  // The filter object
  // ---------------------------------------------------------------------------

  /** A filter, configured in place by its builder methods. */
  class SelfMetaFilter {
    var filterElytraStop: bool
    var suppressedIndices: set<int>
    var suppressedBits: map<int, bv8>
    var suppressAttributes: bool

    /** The current configuration as a value. */
    function View(): Policy
      reads this
    {
      Policy(suppressedIndices, suppressedBits, suppressAttributes, filterElytraStop)
    }

    /** An empty filter. */
    constructor ()
      ensures View() == EmptyPolicy()
    {
      filterElytraStop := false;
      suppressedIndices := {};
      suppressedBits := map[];
      suppressAttributes := false;
    }

    /** Drop a whole metadata index; returns this filter for chaining. */
    method SuppressIndex(index: int) returns (self: SelfMetaFilter)
      modifies this
      ensures self == this
      ensures View() == WithIndex(old(View()), index)
    {
      suppressedIndices := suppressedIndices + {index};
      self := this;
    }

    /** Strip the bits of `mask` from the flag byte at `index`; returns this filter for chaining. */
    method SuppressBit(index: int, mask: bv8) returns (self: SelfMetaFilter)
      modifies this
      ensures self == this
      ensures View() == WithBit(old(View()), index, mask)
    {
      var existing := if index in suppressedBits then suppressedBits[index] else 0;
      suppressedBits := suppressedBits[index := existing | mask];
      self := this;
    }

    /** Set whether attribute echoes are suppressed; returns this filter for chaining. */
    method SuppressAttributes(suppress: bool) returns (self: SelfMetaFilter)
      modifies this
      ensures self == this
      ensures AttributesSuppressed() == suppress
      ensures View() == old(View()).(suppressAttributes := suppress)
    {
      suppressAttributes := suppress;
      self := this;
    }

    /** Set whether the elytra-stop transition is filtered too; returns this filter for chaining. */
    method FilterElytraStop(filter: bool) returns (self: SelfMetaFilter)
      modifies this
      ensures self == this
      ensures ElytraStopFiltered() == filter
      ensures View() == old(View()).(filterElytraStop := filter)
    {
      filterElytraStop := filter;
      self := this;
    }

    /** Whether the elytra-stop transition is filtered. */
    function ElytraStopFiltered(): bool
      reads this
    {
      filterElytraStop
    }

    /** Whether attribute echoes are suppressed. */
    function AttributesSuppressed(): bool
      reads this
    {
      suppressAttributes
    }

    /**
     * Filter a metadata entry map. The loop copies the input on the first
     * entry that triggers a rule and edits the copy from then on.
     */
    method Filter(entries: Entries) returns (result: Option<Entries>)
      ensures result == Filtered(View(), entries)
    {
      ghost var p := View();
      ghost var done: set<int> := {};
      result := None;
      var modified := false;
      var pending := entries.Keys;
      while pending != {}
        invariant pending <= entries.Keys && done == entries.Keys - pending
        invariant modified == result.Some?
        invariant modified == AnyMatchIn(p, entries, done)
        invariant modified ==> result.value == Partial(p, entries, done)
        decreases pending
      {
        ghost var next := SomeKey(pending);
        var index :| index in pending;
        pending := pending - {index};
        var v := entries[index];
        AnyMatchStep(p, entries, done, index);
        if index in suppressedBits && v.ByteV? {
          var serverOnly := ServerOnly(v.flags, suppressedBits[index]);
          StepMasked(p, entries, done, index);
          if !modified {
            PartialOfUnmatched(p, entries, done);
            result := Some(entries);
            modified := true;
          }
          if serverOnly != 0 {
            result := Some(result.value[index := ByteV(serverOnly)]);
          } else {
            result := Some(result.value - {index});
          }
        } else if index in suppressedIndices {
          StepDropped(p, entries, done, index);
          if !modified {
            PartialOfUnmatched(p, entries, done);
            result := Some(entries);
            modified := true;
          }
          result := Some(result.value - {index});
        } else {
          StepUnmatched(p, entries, done, index);
        }
        done := done + {index};
      }
      PartialComplete(p, entries, done);
      assert AnyMatch(p, entries) == AnyMatchIn(p, entries, done);
    }
  }

  /** The default player filter, built through the builder methods. */
  method DefaultPlayerFilter() returns (f: SelfMetaFilter)
    ensures fresh(f)
    ensures f.View() == DefaultPolicy()
  {
    f := new SelfMetaFilter();
    f := f.SuppressBit(ENTITY_FLAGS, CROUCHING_BIT);
    f := f.SuppressBit(ENTITY_FLAGS, SPRINTING_BIT);
    f := f.SuppressIndex(POSE);
    f := f.SuppressIndex(LIVING_ENTITY_FLAGS);
    f := f.SuppressAttributes(true);
  }
}
