/** The assignment payload validator: one message string per payload, where
    the empty string means the payload is acceptable.

    The checks run in the order the code runs them, which is NOT
    "mandatory keys first": the `elif` chain over the payload's shape only
    records a message, and the loop over `points` and `num_of_attempts`
    that follows it returns early, so a bad integer field overrides every
    shape message. */
module Validation {
  import opened Json

  const MandatoryMsg := "Mandatory fields : name, points, num_of_attempts, deadline"
  const RestrictedMsg := "Restricted : Only name, points, num_of_attempts, deadline are allowed"
  const NullMsg := "Values cannot be Null : name, points, num_of_attempts, deadline"
  const NameTypeMsg := "Type error: Name should be string"

  /** The message for a field that is not a Python `int`. */
  function TypeMsg(field: string): string
  {
    "Invalid type: " + field + " must be an integer"
  }

  /** The message for an integer field outside [1, 100]. */
  function RangeMsg(field: string): string
  {
    "Invalid value: " + field + " must be between 1 and 100"
  }

  /** The four keys an assignment payload must carry, and the only ones it may. */
  const MandatoryKeys: set<string> := {"name", "points", "num_of_attempts", "deadline"}

  /** The fields the per-field loop checks, in loop order. */
  const IntFields: seq<string> := ["points", "num_of_attempts"]

  /** Every message the validator can return, the empty "valid" one included. */
  const AllMessages: set<string> :=
    {"", MandatoryMsg, RestrictedMsg, NullMsg, NameTypeMsg,
     TypeMsg("points"), RangeMsg("points"),
     TypeMsg("num_of_attempts"), RangeMsg("num_of_attempts")}

  /** The `if/elif` chain over the payload's shape: missing keys, then extra
      keys, then empty-string values, then a non-string name. */
  function ShapeMessage(data: Payload): string
  {
    if !(MandatoryKeys <= data.Keys) then MandatoryMsg
    else if |data| > 4 then RestrictedMsg
    else if Get(data, "name") == JStr("") || Get(data, "points") == JStr("")
         || Get(data, "num_of_attempts") == JStr("") || Get(data, "deadline") == JStr("")
    then NullMsg
    else if !Get(data, "name").JStr? then NameTypeMsg
    else ""
  }

  /** One iteration of the per-field loop: the message it returns, or "" when
      the loop goes on. */
  function FieldMessage(data: Payload, field: string): string
  {
    var v := Get(data, field);
    if !IsInt(v) then TypeMsg(field)
    else if !(1 <= IntValue(v) <= 100) then RangeMsg(field)
    else ""
  }

  /** The per-field loop over `fields`: the first message an iteration
      returns, or "" when the loop runs to completion. */
  function FieldLoop(data: Payload, fields: seq<string>): (message: string)
    ensures message == "" <==> forall i :: 0 <= i < |fields| ==> IsIntInRange(Get(data, fields[i]))
    ensures message != "" ==> exists i :: 0 <= i < |fields| && message == FieldMessage(data, fields[i])
  {
    if |fields| == 0 then ""
    else
      var m := FieldMessage(data, fields[0]);
      if m != "" then m else FieldLoop(data, fields[1..])
  }

  /** What a well-formed assignment payload is, stated without any ordering:
      exactly the four keys, a non-empty string name, a deadline that is not
      the empty string, and both integer fields in [1, 100]. */
  ghost predicate WellFormed(data: Payload)
  {
    && data.Keys == MandatoryKeys
    && data["name"].JStr? && data["name"] != JStr("")
    && data["deadline"] != JStr("")
    && IsIntInRange(data["points"])
    && IsIntInRange(data["num_of_attempts"])
  }

  /** `Validation.isAssignDataValid`: "" exactly for well-formed payloads,
      and otherwise one of the validator's fixed messages. */
  function IsAssignDataValid(data: Payload): (message: string)
    ensures message == "" <==> WellFormed(data)
    ensures message in AllMessages
  {
    var shape := ShapeMessage(data);
    var loop := FieldLoop(data, IntFields);
    ValidIffWellFormed(data);
    if loop != "" then loop else shape
  }

  lemma ValidIffWellFormed(data: Payload)
    ensures (FieldLoop(data, IntFields) == "" && ShapeMessage(data) == "") <==> WellFormed(data)
  {
    assert IntFields[0] == "points" && IntFields[1] == "num_of_attempts";
    if MandatoryKeys <= data.Keys && data.Keys != MandatoryKeys {
      ExtraKeyMeansTooMany(data);
    }
    if FieldLoop(data, IntFields) == "" && ShapeMessage(data) == "" {
      assert IsIntInRange(Get(data, IntFields[0]));
      assert IsIntInRange(Get(data, IntFields[1]));
      assert data.Keys == MandatoryKeys;
      assert WellFormed(data);
    }
    if WellFormed(data) {
      assert forall i :: 0 <= i < |IntFields| ==> IsIntInRange(Get(data, IntFields[i]));
      assert ShapeMessage(data) == "";
    }
  }

  // ---------------------------------------------------------------------------
  // Precedence of the checks

  /** A `points` value that is not an integer (a missing key included) is
      reported as such, whatever the rest of the payload holds. */
  lemma PointsTypeOverridesAll(data: Payload)
    requires !IsInt(Get(data, "points"))
    ensures IsAssignDataValid(data) == TypeMsg("points")
  {
  }

  /** `points` is checked before `num_of_attempts`: a bad `points` wins. */
  lemma PointsCheckedFirst(data: Payload)
    requires !IsIntInRange(Get(data, "points"))
    ensures IsAssignDataValid(data) == FieldMessage(data, "points")
    ensures IsAssignDataValid(data) in {TypeMsg("points"), RangeMsg("points")}
  {
  }

  /** With a good `points`, a bad `num_of_attempts` is the answer, again
      whatever the shape of the payload. */
  lemma AttemptsCheckedSecond(data: Payload)
    requires IsIntInRange(Get(data, "points"))
    requires !IsIntInRange(Get(data, "num_of_attempts"))
    ensures IsAssignDataValid(data) == FieldMessage(data, "num_of_attempts")
  {
    assert IntFields[0] == "points" && IntFields[1..] == ["num_of_attempts"];
    assert FieldMessage(data, "points") == "";
    assert FieldLoop(data, ["num_of_attempts"]) == FieldMessage(data, "num_of_attempts");
  }

  /** The range check on an integer field is inclusive at both ends. */
  lemma RangeIsInclusive(data: Payload, field: string, n: int)
    requires field in IntFields
    requires Get(data, field) == JInt(n)
    ensures FieldMessage(data, field) == "" <==> 1 <= n <= 100
    ensures n == 0 || n == 101 ==> FieldMessage(data, field) == RangeMsg(field)
  {
  }

  /** Booleans are Python integers: `true` is the in-range value 1, `false`
      the out-of-range value 0. */
  lemma BooleansAreIntegers(data: Payload, field: string)
    requires field in IntFields
    requires Get(data, field).JBool?
    ensures FieldMessage(data, field) == (if Get(data, field).flag then "" else RangeMsg(field))
  {
  }

  /** With both integer fields good, the shape chain decides, in its own
      order. */
  lemma ShapeDecidesWhenFieldsGood(data: Payload)
    requires IsIntInRange(Get(data, "points")) && IsIntInRange(Get(data, "num_of_attempts"))
    ensures "name" !in data || "deadline" !in data ==> IsAssignDataValid(data) == MandatoryMsg
    ensures MandatoryKeys <= data.Keys && data.Keys != MandatoryKeys
            ==> IsAssignDataValid(data) == RestrictedMsg
    ensures data.Keys == MandatoryKeys && (data["name"] == JStr("") || data["deadline"] == JStr(""))
            ==> IsAssignDataValid(data) == NullMsg
    ensures data.Keys == MandatoryKeys && data["name"] != JStr("") && data["deadline"] != JStr("")
            && !data["name"].JStr?
            ==> IsAssignDataValid(data) == NameTypeMsg
  {
    if MandatoryKeys <= data.Keys && data.Keys != MandatoryKeys {
      ExtraKeyMeansTooMany(data);
    }
  }

  /** Once the four mandatory keys are present, the payload has more than
      four members exactly when it holds some other key. */
  lemma ExtraKeyMeansTooMany(data: Payload)
    requires MandatoryKeys <= data.Keys
    ensures |data| > 4 <==> data.Keys != MandatoryKeys
  {
    MandatoryKeysCount();
    if data.Keys != MandatoryKeys {
      var extra :| extra in data.Keys && extra !in MandatoryKeys;
      assert MandatoryKeys + {extra} <= data.Keys;
      assert |MandatoryKeys + {extra}| == 5;
      SubsetCardinality(MandatoryKeys + {extra}, data.Keys);
    }
  }

  lemma MandatoryKeysCount()
    ensures |MandatoryKeys| == 4
  {
  }

  lemma SubsetCardinality<T>(a: set<T>, b: set<T>)
    requires a <= b
    ensures |a| <= |b|
  {
    assert b == a + (b - a);
  }

  /** The deadline's value is never type-checked: once the key is present,
      any value but the empty string gives the same verdict. */
  lemma DeadlineValueIrrelevant(data: Payload, d1: JVal, d2: JVal)
    requires "deadline" in data
    requires d1 != JStr("") && d2 != JStr("")
    ensures IsAssignDataValid(data["deadline" := d1]) == IsAssignDataValid(data["deadline" := d2])
  {
    var a, b := data["deadline" := d1], data["deadline" := d2];
    assert a.Keys == data.Keys && b.Keys == data.Keys;
    assert Get(a, "name") == Get(b, "name");
    assert Get(a, "points") == Get(b, "points");
    assert Get(a, "num_of_attempts") == Get(b, "num_of_attempts");
    assert ShapeMessage(a) == ShapeMessage(b);
    SameFieldsSameLoop(a, b, IntFields);
  }

  /** The per-field loop only looks at the fields it is given. */
  lemma {:induction false} SameFieldsSameLoop(a: Payload, b: Payload, fields: seq<string>)
    requires forall i :: 0 <= i < |fields| ==> Get(a, fields[i]) == Get(b, fields[i])
    ensures FieldLoop(a, fields) == FieldLoop(b, fields)
  {
    if |fields| > 0 {
      assert FieldMessage(a, fields[0]) == FieldMessage(b, fields[0]) by {
        assert Get(a, fields[0]) == Get(b, fields[0]);
      }
      forall i | 0 <= i < |fields[1..]|
        ensures Get(a, fields[1..][i]) == Get(b, fields[1..][i])
      {
        assert fields[1..][i] == fields[i + 1];
      }
      SameFieldsSameLoop(a, b, fields[1..]);
    }
  }

  /** A typical well-formed payload is accepted. */
  lemma ExamplePayloadAccepted()
    ensures IsAssignDataValid(map["name" := JStr("HW1"), "points" := JInt(50),
                                  "num_of_attempts" := JInt(3),
                                  "deadline" := JStr("2024-01-01T00:00:00")]) == ""
  {
  }

  /** A payload lacking `points` is told that `points` must be an integer,
      not that a mandatory field is missing. */
  lemma MissingPointsExample()
    ensures IsAssignDataValid(map["name" := JStr("HW1"), "num_of_attempts" := JInt(3),
                                  "deadline" := JStr("2024-01-01T00:00:00")]) == TypeMsg("points")
  {
  }
}
