/**
 * The `massaction_duplicated` event: fired when a mass "duplicate" action
 * completes. Its `other` data carries `cms` (source course-module id to the id
 * of its duplicate, in insertion order) and optionally `errors`.
 *
 * PHP values are modelled by `Value`; an array is its ordered list of
 * (key, value) entries, and scalars carry their PHP type.
 */
module MassactionEvent {
  import opened Wrappers
  import opened PhpStrings

  /** A PHP array key: an integer or a string. */
  datatype Key = IntKey(n: int) | StrKey(s: string)

  /** A PHP value, as far as the event's data uses it. */
  datatype Value =
    | Null
    | Bool(b: bool)
    | Int(i: int)
    | Str(s: string)
    | Array(entries: seq<(Key, Value)>)

  /** `self::LEVEL_OTHER` of the host event base class. */
  const LevelOther: int := 0

  /** The fixed opening of every description. */
  const DescriptionPrefix: string := "Mass action duplicate has been completed. "

  /** The exception `validate_data` raises. */
  datatype CodingException = CodingException(message: string)

  /** `$array[$name]` on the event's `other`: the first entry under the string
      key `name`, and null when there is none or `other` is not an array. */
  function Lookup(other: Value, name: string): Value
    decreases if other.Array? then |other.entries| else 0
  {
    if !other.Array? || other.entries == [] then Null
    else if other.entries[0].0 == StrKey(name) then other.entries[0].1
    else Lookup(Array(other.entries[1..]), name)
  }

  /** PHP `isset`: present and not null. */
  predicate IsSet(v: Value)
  {
    v != Null
  }

  /** PHP `empty`: null, false, 0, "", "0" or an empty array. */
  predicate IsEmpty(v: Value)
  {
    match v
    case Null => true
    case Bool(b) => !b
    case Int(i) => i == 0
    case Str(s) => s == "" || s == "0"
    case Array(entries) => entries == []
  }

  /** PHP's string conversion, as `.` applies it; an array converts to "Array". */
  function ValueText(v: Value): string
  {
    match v
    case Null => ""
    case Bool(b) => if b then "1" else ""
    case Int(i) => IntText(i)
    case Str(s) => s
    case Array(_) => "Array"
  }

  /** The string form of an array key. */
  function KeyText(k: Key): string
  {
    match k
    case IntKey(n) => IntText(n)
    case StrKey(s) => s
  }

  /** `validate_data`, the block's own check: `other['cms']` must be set and an array. */
  function ValidateData(other: Value): Outcome<CodingException>
  {
    var cms := Lookup(other, "cms");
    if !IsSet(cms) || !cms.Array? then Fail(CodingException("The 'cms' value must be array and set in other."))
    else Pass
  }

  /** The entries `foreach` visits in `other['cms']`; PHP visits nothing (with a
      warning) when the value is not an array. */
  function CmEntries(other: Value): seq<(Key, Value)>
  {
    var cms := Lookup(other, "cms");
    if cms.Array? then cms.entries else []
  }

  /** The description of one duplicated course module. */
  function CmFragment(src: Key, dst: Value): string
  {
    "cmid from '" + KeyText(src) + "' to '" + ValueText(dst) + "'"
  }

  /** One fragment per entry, in iteration order. */
  function CmFragments(entries: seq<(Key, Value)>): seq<string>
  {
    seq(|entries|, i requires 0 <= i < |entries| => CmFragment(entries[i].0, entries[i].1))
  }

  /** `implode` needs an array: `errors` must be empty in PHP's sense or an array. */
  predicate ErrorsImplodable(other: Value)
  {
    var errors := Lookup(other, "errors");
    IsEmpty(errors) || errors.Array?
  }

  /** The texts of the error values, in order. */
  function ErrorTexts(errors: Value): seq<string>
    requires errors.Array?
  {
    seq(|errors.entries|, i requires 0 <= i < |errors.entries| => ValueText(errors.entries[i].1))
  }

  /** The tail of the description: a lone quote when there are no errors, else the
      errors quoted and separated by `','`, with no closing quote. */
  function ErrorSuffix(other: Value): string
    requires ErrorsImplodable(other)
  {
    var errors := Lookup(other, "errors");
    if !IsEmpty(errors) then " with error '" + Join(ErrorTexts(errors), "','") else "'"
  }

  /** What `get_description` returns for an event with this `other` data. */
  function Description(other: Value): string
    requires ErrorsImplodable(other)
  {
    DescriptionPrefix + Join(CmFragments(CmEntries(other)), ", ") + ErrorSuffix(other)
  }

  /** The event object; `data` holds the fields the host framework keeps
      (`crud`, `edulevel`, `other`, ...). */
  class MassactionDuplicated {
    var data: map<string, Value>

    constructor (initial: map<string, Value>)
      ensures data == initial
    {
      data := initial;
    }

    /** `$this->other`. */
    function Other(): Value
      reads this
    {
      if "other" in data then data["other"] else Null
    }

    /** `init`: the event creates (`crud` 'c') at the "other" education level;
        no other field changes. */
    method Init()
      modifies this
      ensures data == old(data)["crud" := Str("c")]["edulevel" := Int(LevelOther)]
      ensures forall name :: name in old(data) && name != "crud" && name != "edulevel" ==> data[name] == old(data)[name]
    {
      data := data["crud" := Str("c")];
      data := data["edulevel" := Int(LevelOther)];
    }

    /** `get_description`: builds one fragment per `cms` entry, then joins them
        after the prefix and appends the error tail. */
    method GetDescription() returns (description: string)
      requires ErrorsImplodable(Other())
      ensures description == Description(Other())
      ensures |description| >= |DescriptionPrefix| && description[..|DescriptionPrefix|] == DescriptionPrefix
    {
      var entries := CmEntries(Other());
      var cms: seq<string> := [];
      var i := 0;
      while i < |entries|
        invariant 0 <= i <= |entries|
        invariant |cms| == i
        invariant forall j :: 0 <= j < i ==> cms[j] == CmFragment(entries[j].0, entries[j].1)
      {
        cms := cms + [CmFragment(entries[i].0, entries[i].1)];
        i := i + 1;
      }
      assert cms == CmFragments(entries);
      var errors := Lookup(Other(), "errors");
      var errormsg := if !IsEmpty(errors) then " with error '" + Join(ErrorTexts(errors), "','") else "'";
      description := DescriptionPrefix + Join(cms, ", ") + errormsg;
    }
  }

  /** Validation fails exactly when `other['cms']` is unset or not an array;
      when it passes, the description walks every entry of that array. */
  lemma ValidateDataCharacterised(other: Value)
    ensures ValidateData(other).Fail? <==> !(Lookup(other, "cms").Array?)
    ensures ValidateData(other).Pass? ==> CmEntries(other) == Lookup(other, "cms").entries
  {
  }

  /** An event that fails validation would describe no course module at all. */
  lemma {:induction false} RejectedEventDescribesNothing(other: Value)
    requires ErrorsImplodable(other)
    requires ValidateData(other).Fail?
    ensures Description(other) == DescriptionPrefix + ErrorSuffix(other)
  {
    assert CmFragments(CmEntries(other)) == [];
  }

  /** Every `cms` entry is mentioned, as `cmid from 'src' to 'dst'`. */
  lemma {:induction false} DescriptionMentionsEveryCm(other: Value, i: int)
    requires ErrorsImplodable(other)
    requires 0 <= i < |CmEntries(other)|
    ensures exists k :: ContainsAt(Description(other), CmFragment(CmEntries(other)[i].0, CmEntries(other)[i].1), k)
  {
    var fragments := CmFragments(CmEntries(other));
    JoinContainsPart(fragments, ", ", i);
    var k :| ContainsAt(Join(fragments, ", "), fragments[i], k);
    ContainsAtShift(DescriptionPrefix, Join(fragments, ", "), ErrorSuffix(other), fragments[i], k);
    assert ContainsAt(Description(other), fragments[i], |DescriptionPrefix| + k);
  }

  /** The `cms` entries are described in iteration order: the fragment of an
      earlier entry ends, followed at least by the ", " separator, before the
      fragment of a later entry begins. */
  lemma {:induction false} DescriptionKeepsCmOrder(other: Value, i: int, j: int)
    requires ErrorsImplodable(other)
    requires 0 <= i < j < |CmEntries(other)|
    ensures var entries := CmEntries(other);
      var first := CmFragment(entries[i].0, entries[i].1);
      var second := CmFragment(entries[j].0, entries[j].1);
      exists k1, k2 :: ContainsAt(Description(other), first, k1) && ContainsAt(Description(other), second, k2)
                       && k1 + |first| + |", "| <= k2
  {
    var entries := CmEntries(other);
    var fragments := CmFragments(entries);
    assert fragments[i] == CmFragment(entries[i].0, entries[i].1);
    assert fragments[j] == CmFragment(entries[j].0, entries[j].1);
    var description := DescriptionPrefix + Join(fragments, ", ") + ErrorSuffix(other);
    JoinKeepsPartOrderWithin(DescriptionPrefix, fragments, ", ", ErrorSuffix(other), i, j);
    var k1, k2 :| ContainsAt(description, fragments[i], k1) && ContainsAt(description, fragments[j], k2)
                  && k1 + |fragments[i]| + |", "| <= k2;
    assert Description(other) == description;
    assert ContainsAt(Description(other), fragments[i], k1) && ContainsAt(Description(other), fragments[j], k2);
  }

  /** Without errors the description is the prefix, the fragments separated by
      ", ", and one lone trailing quote. */
  lemma {:induction false} DescriptionWithoutErrors(other: Value)
    requires IsEmpty(Lookup(other, "errors"))
    ensures ErrorsImplodable(other)
    ensures Description(other) == DescriptionPrefix + Join(CmFragments(CmEntries(other)), ", ") + "'"
    ensures Description(other)[|Description(other)| - 1] == '\''
  {
  }

  /** With errors the description ends with " with error '" and the error texts
      separated by "','"; no closing quote follows the last error. */
  lemma {:induction false} DescriptionWithErrors(other: Value)
    requires Lookup(other, "errors").Array? && Lookup(other, "errors").entries != []
    ensures ErrorsImplodable(other)
    ensures var tail := " with error '" + Join(ErrorTexts(Lookup(other, "errors")), "','");
      |tail| <= |Description(other)| && Description(other)[|Description(other)| - |tail|..] == tail
  {
  }

  /** An event whose `cms` holds two entries and whose error list is empty
      describes both moves, a comma between them, and a trailing quote. */
  lemma TwoModulesExample(other: Value, src1: Key, dst1: Value, src2: Key, dst2: Value)
    requires CmEntries(other) == [(src1, dst1), (src2, dst2)]
    requires IsEmpty(Lookup(other, "errors"))
    ensures ErrorsImplodable(other)
    ensures Description(other) == DescriptionPrefix + CmFragment(src1, dst1) + ", " + CmFragment(src2, dst2) + "'"
  {
    var fragments := [CmFragment(src1, dst1), CmFragment(src2, dst2)];
    DescriptionWithoutErrors(other);
    assert CmFragments(CmEntries(other)) == fragments;
    assert Join(fragments, ", ") == fragments[0] + ", " + fragments[1] by {
      JoinUnfold(fragments, ", ");
      assert fragments[1..] == [fragments[1]];
    }
  }

  /** The event built the way the block fires it, with `other` holding `cms`
      and an empty `errors` array, passes validation and meets the example above. */
  lemma TwoModulesEventShape(src1: Key, dst1: Value, src2: Key, dst2: Value)
    ensures var other := Array([(StrKey("cms"), Array([(src1, dst1), (src2, dst2)])), (StrKey("errors"), Array([]))]);
      ValidateData(other) == Pass && CmEntries(other) == [(src1, dst1), (src2, dst2)] && IsEmpty(Lookup(other, "errors"))
  {
    var other := Array([(StrKey("cms"), Array([(src1, dst1), (src2, dst2)])), (StrKey("errors"), Array([]))]);
    assert Lookup(other, "cms") == Array([(src1, dst1), (src2, dst2)]);
    assert Lookup(other, "errors") == Array([]) by {
      assert other.entries[1..] == [(StrKey("errors"), Array([]))];
    }
  }
}
