/**
 * The mandatory field descriptors of med/mandatory.hpp. The library picks a
 * partial specialisation of `mandatory<...>` from the kinds of its five
 * template arguments and checks the numeric bounds with `static_assert`.
 * Here the kinds are a closed datatype `Param`, the argument list is `Args`
 * (with the template's defaults), and the specialisation choice plus its
 * assertions is the function `Classify`, which yields a `Descriptor` or the
 * list of failed assertions.
 */
module Mandatory {
  import Exceptions

  /**
   * The kind of one template argument. Types are identified by name; a
   * field is tagged when it carries its own tag (`is_tagged_field`).
   */
  datatype Param =
    | Void
    | Field(name: string, tagged: bool)
    | Setter(name: string)
    | CountGetter(name: string)
    | Counter(name: string)
    | Tag(name: string)
    | Length(name: string)
    | Arity(num: nat)
    | Min(min: nat)
    | Max(max: nat)

  /** `mandatory<TAG_FLD_LEN, FLD_LEN_NUM, FLD_NUM, MIN_MAX, MAX_MIN>` with the template's defaults. */
  datatype Args = Args(
    first: Param,
    second: Param := Void,
    third: Param := Void,
    fourth: Param := Min(1),
    fifth: Param := Max(1))

  /** How the value is framed on the wire: `tag_value_t` and `length_value_t` wrap the field. */
  datatype Layout =
    | FieldOf(field: string, tagged: bool)
    | TagValue(tag: string, inner: Layout)
    | LengthValue(length: string, inner: Layout)

  /** Where the number of instances comes from when decoding a multi-field. */
  datatype Delegate = Inferred | ByCountGetter(getter: string) | ByCounter(counter: string)

  /** The descriptor a specialisation derives from: `field_t` when `[min, max]` is `[1, 1]`, else `multi_field_t`. */
  datatype Descriptor = Descriptor(
    layout: Layout,
    min: nat,
    max: nat,
    delegate: Delegate,
    setter: Exceptions.Option<string>)

  /** A failed `static_assert`, by its message. */
  datatype Rejection =
    | Malformed          // "MALFORMED MANDATORY"
    | ArityNotAboveOne   // "ARITY SHOULD BE MORE THAN 1 OR NOT SPECIFIED"
    | MinNotAboveOne     // "MIN SHOULD BE MORE THAN 1 OR NOT SPECIFIED"
    | MaxNotAboveMin     // "MAX SHOULD BE MORE THAN MIN OR ARITY USED"
    | MaxNotAboveOne     // "MAX SHOULD BE MORE THAN 1 OR NOT SPECIFIED"

  /**
   * The outcome of instantiating `mandatory<...>`: a descriptor, the failed
   * assertions, or the empty primary template (`mandatory<void>`).
   */
  datatype Verdict = Accepted(d: Descriptor) | Rejected(reasons: seq<Rejection>) | NoField

  predicate IsSingle(d: Descriptor) {
    d.min == 1 && d.max == 1
  }

  /** The layouts the specialisations produce: a field, tagged, length-prefixed, or tag outside length. */
  predicate WellFramed(l: Layout) {
    match l
    case FieldOf(_, _) => true
    case TagValue(_, FieldOf(_, _)) => true
    case LengthValue(_, FieldOf(_, _)) => true
    case TagValue(_, LengthValue(_, FieldOf(_, _))) => true
    case _ => false
  }

  /**
   * What an accepted descriptor satisfies, stated independently of the
   * specialisation list: `1 <= min <= max`; a setter only on a single plain
   * field; a count delegate only on a plain multi-field with a range of
   * counts; a length-prefixed field never takes `min`; and a plain `min`/`max`
   * range needs a delegate or a field that carries its own tag.
   */
  predicate Valid(d: Descriptor) {
    && WellFramed(d.layout)
    && 1 <= d.min <= d.max
    && (d.setter.Some? ==> IsSingle(d) && d.layout.FieldOf? && d.delegate.Inferred?)
    && (!d.delegate.Inferred? ==> d.layout.FieldOf? && d.min < d.max)
    && (d.layout.LengthValue? ==> d.min == 1 || d.min == d.max)
    && (1 < d.min < d.max && d.layout.FieldOf? && d.delegate.Inferred? ==> d.layout.tagged)
  }

  /** `multi_field_t` with `MIN == MAX == NUM`, after `NUM > 1` is asserted. */
  function Fixed(l: Layout, num: nat): Verdict {
    if num > 1 then Accepted(Descriptor(l, num, num, Inferred, Exceptions.None))
    else Rejected([ArityNotAboveOne])
  }

  /** `multi_field_t` with `MIN == 1`, after `MAX > 1` is asserted. */
  function UpTo(l: Layout, max: nat, delegate: Delegate): Verdict {
    if max > 1 then Accepted(Descriptor(l, 1, max, delegate, Exceptions.None))
    else Rejected([MaxNotAboveOne])
  }

  /** `multi_field_t` with both bounds, after `MIN > 1` and `MAX > MIN` are asserted; every failing assertion is reported. */
  function Range(l: Layout, min: nat, max: nat, delegate: Delegate): Verdict {
    var reasons := (if min > 1 then [] else [MinNotAboveOne]) + (if max > min then [] else [MaxNotAboveMin]);
    if reasons == [] then Accepted(Descriptor(l, min, max, delegate, Exceptions.None))
    else Rejected(reasons)
  }

  function Single(l: Layout, setter: Exceptions.Option<string>): Verdict {
    Accepted(Descriptor(l, 1, 1, Inferred, setter))
  }

  function Plain(f: Param): Layout
    requires f.Field?
  {
    FieldOf(f.name, f.tagged)
  }

  /**
   * The specialisation `mandatory<...>` selects for `p`, in source order,
   * with its `static_assert`s. Arguments matching none of them reach the
   * primary template, which rejects anything but `void`. Where the last
   * tag-length form overlaps the plain tag-length one (`min<1>, max<1>`),
   * the more specialised plain form wins.
   */
  function Classify(p: Args): (v: Verdict)
    ensures v.NoField? <==> p.first.Void?
    ensures v.Accepted? ==> Valid(v.d) && Spell(v.d) == p
    ensures v.Rejected? ==> |v.reasons| >= 1
  {
    var Args(a, b, c, d, e) := p;
    var unit := d == Min(1) && e == Max(1);
    if a.Void? then NoField
    else if a.Field? && b.Void? && c.Void? && unit then Single(Plain(a), Exceptions.None)
    else if a.Field? && b.Setter? && c.Void? && unit then Single(Plain(a), Exceptions.Some(b.name))
    else if a.Field? && b.Arity? && c.Void? && unit then Fixed(Plain(a), b.num)
    else if a.Field? && b.Min? && c.Max? && d.CountGetter? && e == Max(1) then
      Range(Plain(a), b.min, c.max, ByCountGetter(d.name))
    else if a.Counter? && b.Field? && c.Min? && d.Max? && e == Max(1) then
      Range(Plain(b), c.min, d.max, ByCounter(a.name))
    else if a.Field? && a.tagged && b.Min? && c.Max? && unit then Range(Plain(a), b.min, c.max, Inferred)
    else if a.Field? && b.Max? && c.Void? && unit then UpTo(Plain(a), b.max, Inferred)
    else if a.Field? && b.Max? && c.CountGetter? && unit then UpTo(Plain(a), b.max, ByCountGetter(c.name))
    else if a.Counter? && b.Field? && c.Max? && unit then UpTo(Plain(b), c.max, ByCounter(a.name))
    else if a.Tag? && b.Field? && c.Void? && unit then Single(TagValue(a.name, Plain(b)), Exceptions.None)
    else if a.Tag? && b.Field? && c.Arity? && unit then Fixed(TagValue(a.name, Plain(b)), c.num)
    else if a.Tag? && b.Field? && c.Max? && unit then UpTo(TagValue(a.name, Plain(b)), c.max, Inferred)
    else if a.Tag? && b.Field? && c.Min? && d.Max? && e == Max(1) then
      Range(TagValue(a.name, Plain(b)), c.min, d.max, Inferred)
    else if a.Length? && b.Field? && c.Void? && unit then Single(LengthValue(a.name, Plain(b)), Exceptions.None)
    else if a.Length? && b.Field? && c.Arity? && unit then Fixed(LengthValue(a.name, Plain(b)), c.num)
    else if a.Length? && b.Field? && c.Max? && unit then UpTo(LengthValue(a.name, Plain(b)), c.max, Inferred)
    else if a.Tag? && b.Length? && c.Field? && unit then
      Single(TagValue(a.name, LengthValue(b.name, Plain(c))), Exceptions.None)
    else if a.Tag? && b.Length? && c.Field? && d.Arity? && e == Max(1) then
      Fixed(TagValue(a.name, LengthValue(b.name, Plain(c))), d.num)
    else if a.Tag? && b.Length? && c.Field? && d.Max? && e == Max(1) then
      UpTo(TagValue(a.name, LengthValue(b.name, Plain(c))), d.max, Inferred)
    else if a.Tag? && b.Length? && c.Field? && d.Min? && e.Max? then
      Range(TagValue(a.name, LengthValue(b.name, Plain(c))), d.min, e.max, Inferred)
    else Rejected([Malformed])
  }

  /**
   * The template arguments that spell a descriptor: the inverse of
   * `Classify` on accepted descriptors. The bounds pick the spelling:
   * nothing for `[1, 1]`, `arity` for `[n, n]`, `max` for `[1, m]` and
   * `min, max` otherwise.
   */
  function Spell(d: Descriptor): Args {
    var lo, hi := d.min, d.max;
    match d.layout
    case FieldOf(name, tagged) =>
      var f := Field(name, tagged);
      if hi <= 1 then
        (match d.setter
         case Some(s) => Args(f, Setter(s))
         case None => Args(f))
      else if lo == hi then Args(f, Arity(lo))
      else if lo <= 1 then
        (match d.delegate
         case Inferred => Args(f, Max(hi))
         case ByCountGetter(g) => Args(f, Max(hi), CountGetter(g))
         case ByCounter(c) => Args(Counter(c), f, Max(hi)))
      else
        (match d.delegate
         case Inferred => Args(f, Min(lo), Max(hi))
         case ByCountGetter(g) => Args(f, Min(lo), Max(hi), CountGetter(g))
         case ByCounter(c) => Args(Counter(c), f, Min(lo), Max(hi)))
    case TagValue(t, FieldOf(name, tagged)) =>
      var f := Field(name, tagged);
      if hi <= 1 then Args(Tag(t), f)
      else if lo == hi then Args(Tag(t), f, Arity(lo))
      else if lo <= 1 then Args(Tag(t), f, Max(hi))
      else Args(Tag(t), f, Min(lo), Max(hi))
    case LengthValue(l, FieldOf(name, tagged)) =>
      var f := Field(name, tagged);
      if hi <= 1 then Args(Length(l), f)
      else if lo == hi then Args(Length(l), f, Arity(lo))
      else Args(Length(l), f, Max(hi))
    case TagValue(t, LengthValue(l, FieldOf(name, tagged))) =>
      var f := Field(name, tagged);
      if hi <= 1 then Args(Tag(t), Length(l), f)
      else if lo == hi then Args(Tag(t), Length(l), f, Arity(lo))
      else if lo <= 1 then Args(Tag(t), Length(l), f, Max(hi))
      else Args(Tag(t), Length(l), f, Min(lo), Max(hi))
    case _ => Args(Void)
  }

  /** Every valid descriptor is reachable: its spelling is accepted and yields it back. */
  lemma ClassifyComplete(d: Descriptor)
    requires Valid(d)
    ensures Classify(Spell(d)) == Accepted(d)
  {
  }

  /** Arguments that reach the primary template spell no valid descriptor at all. */
  lemma MalformedSpellsNothing(p: Args, d: Descriptor)
    requires Classify(p) == Rejected([Malformed])
    ensures Valid(d) ==> Spell(d) != p
  {
    if Valid(d) && Spell(d) == p {
      ClassifyComplete(d);
    }
  }

  /** `arity<NUM>`: a fixed count `[NUM, NUM]`, accepted exactly when `NUM > 1`. */
  predicate FixedOutcome(v: Verdict, num: nat) {
    if num > 1 then v.Accepted? && v.d.min == num && v.d.max == num && v.d.delegate.Inferred?
    else v == Rejected([ArityNotAboveOne])
  }

  /** `max<MAX>`: counts `[1, MAX]`, accepted exactly when `MAX > 1`. */
  predicate UpToOutcome(v: Verdict, max: nat) {
    if max > 1 then v.Accepted? && v.d.min == 1 && v.d.max == max
    else v == Rejected([MaxNotAboveOne])
  }

  /** `min<MIN>, max<MAX>`: counts `[MIN, MAX]`, accepted exactly when `MIN > 1` and `MAX > MIN`; each failed bound is reported. */
  predicate RangeOutcome(v: Verdict, min: nat, max: nat) {
    if min > 1 && max > min then v.Accepted? && v.d.min == min && v.d.max == max
    else v.Rejected? && (MinNotAboveOne in v.reasons <==> min <= 1) && (MaxNotAboveMin in v.reasons <==> max <= min)
  }

  /** A single instance `[1, 1]` in the given layout. */
  predicate SingleOutcome(v: Verdict, l: Layout) {
    v.Accepted? && IsSingle(v.d) && v.d.layout == l && v.d.delegate.Inferred?
  }

  /**
   * The single forms: a bare field, a field with a setter (recorded), and
   * the tagged, length-prefixed and tag-length framings, the tag outside the
   * length.
   */
  lemma SingleForms(f: Param, setter: string, tag: string, len: string)
    requires f.Field?
    ensures SingleOutcome(Classify(Args(f)), Plain(f)) && Classify(Args(f)).d.setter.None?
    ensures var v := Classify(Args(f, Setter(setter)));
      SingleOutcome(v, Plain(f)) && v.d.setter == Exceptions.Some(setter)
    ensures SingleOutcome(Classify(Args(Tag(tag), f)), TagValue(tag, Plain(f)))
    ensures SingleOutcome(Classify(Args(Length(len), f)), LengthValue(len, Plain(f)))
    ensures SingleOutcome(Classify(Args(Tag(tag), Length(len), f)), TagValue(tag, LengthValue(len, Plain(f))))
  {
  }

  /** `arity<NUM>` behaves alike in the plain, tagged, length-prefixed and tag-length framings. */
  lemma ArityForms(f: Param, num: nat, tag: string, len: string)
    requires f.Field?
    ensures FixedOutcome(Classify(Args(f, Arity(num))), num)
    ensures FixedOutcome(Classify(Args(Tag(tag), f, Arity(num))), num)
    ensures FixedOutcome(Classify(Args(Length(len), f, Arity(num))), num)
    ensures FixedOutcome(Classify(Args(Tag(tag), Length(len), f, Arity(num))), num)
  {
  }

  /** `max<MAX>` behaves alike in every framing and with either kind of count delegate. */
  lemma UpToForms(f: Param, max: nat, tag: string, len: string, getter: string, counter: string)
    requires f.Field?
    ensures UpToOutcome(Classify(Args(f, Max(max))), max)
    ensures UpToOutcome(Classify(Args(f, Max(max), CountGetter(getter))), max)
    ensures UpToOutcome(Classify(Args(Counter(counter), f, Max(max))), max)
    ensures UpToOutcome(Classify(Args(Tag(tag), f, Max(max))), max)
    ensures UpToOutcome(Classify(Args(Length(len), f, Max(max))), max)
    ensures UpToOutcome(Classify(Args(Tag(tag), Length(len), f, Max(max))), max)
  {
  }

  /**
   * `min<MIN>, max<MAX>` behaves alike with a count delegate, in the tagged
   * and tag-length framings, and on a field that carries its own tag; on a
   * plain field without a tag or delegate it is malformed. The tag-length
   * spelling of `min<1>, max<1>` is the defaults, so it names the single
   * tag-length form instead.
   */
  lemma RangeForms(f: Param, min: nat, max: nat, tag: string, len: string, getter: string, counter: string)
    requires f.Field?
    ensures RangeOutcome(Classify(Args(f, Min(min), Max(max), CountGetter(getter))), min, max)
    ensures RangeOutcome(Classify(Args(Counter(counter), f, Min(min), Max(max))), min, max)
    ensures RangeOutcome(Classify(Args(Tag(tag), f, Min(min), Max(max))), min, max)
    ensures !(min == 1 && max == 1) ==>
      RangeOutcome(Classify(Args(Tag(tag), Length(len), f, Min(min), Max(max))), min, max)
    ensures min == 1 && max == 1 ==>
      SingleOutcome(Classify(Args(Tag(tag), Length(len), f, Min(min), Max(max))), TagValue(tag, LengthValue(len, Plain(f))))
    ensures f.tagged ==> RangeOutcome(Classify(Args(f, Min(min), Max(max))), min, max)
    ensures !f.tagged ==> Classify(Args(f, Min(min), Max(max))) == Rejected([Malformed])
  {
  }

  /** A count delegate only ever comes with a plain multi-field whose count may vary. */
  lemma DelegateOnlyOnMulti(p: Args)
    requires Classify(p).Accepted? && !Classify(p).d.delegate.Inferred?
    ensures Classify(p).d.layout.FieldOf? && 1 <= Classify(p).d.min < Classify(p).d.max
  {
  }
}
