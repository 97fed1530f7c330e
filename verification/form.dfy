/** The form-validation hook: values as a tree of records read and written through
    dotted paths, per-field touched flags and error messages, and the rules that
    produce those messages. */
module FormValidation {
  import opened Wrappers
  import Text

  /** A JavaScript value as the forms use it. */
  datatype Val =
    | Undefined
    | Null
    | Bool(b: bool)
    | Num(n: int)
    | Str(s: string)
    | Obj(fields: map<string, Val>)

  /** JavaScript truthiness: `undefined`, `null`, `false`, `0` and `""` are falsy;
      every record is truthy. */
  predicate Truthy(v: Val) {
    match v
    case Undefined => false
    case Null => false
    case Bool(b) => b
    case Num(n) => n != 0
    case Str(s) => s != ""
    case Obj(_) => true
  }

  /** `v[key]` on a truthy value: a record's field, or `undefined`. */
  function Member(v: Val, key: string): Val {
    match v
    case Obj(m) => if key in m then m[key] else Undefined
    case _ => Undefined
  }

  /** `parts.reduce((acc, part) => acc && acc[part], acc)`. */
  function GetIn(acc: Val, parts: seq<string>): Val
    decreases |parts|
  {
    if |parts| == 0 then acc
    else GetIn(if Truthy(acc) then Member(acc, parts[0]) else acc, parts[1..])
  }

  /** `getNestedValue(obj, path)`: a path without a dot reads that field, `undefined`
      when missing. */
  function GetNestedValue(values: map<string, Val>, path: string): (v: Val)
    ensures '.' !in path ==> v == Member(Obj(values), path)
  {
    var parts := Text.Split(path, '.');
    if '.' !in path then
      Text.SplitNoSeparator(path, '.');
      assert GetIn(Obj(values), [path]) == GetIn(Member(Obj(values), path), []);
      GetIn(Obj(values), parts)
    else GetIn(Obj(values), parts)
  }

  /** A path whose first segment is missing reads `undefined`, whatever follows. */
  lemma MissingFirstSegment(values: map<string, Val>, path: string)
    requires Text.Split(path, '.')[0] !in values
    ensures GetNestedValue(values, path) == Undefined
  {
    var parts := Text.Split(path, '.');
    assert parts == [parts[0]] + parts[1..];
    MissingSegment(values, parts[0], parts[1..]);
  }

  /** A path without a dot reads one field. */
  lemma ReadField(values: map<string, Val>, key: string)
    requires '.' !in key
    ensures GetNestedValue(values, key) == Member(Obj(values), key)
  {
    Text.SplitNoSeparator(key, '.');
    assert GetIn(Obj(values), [key]) == GetIn(Member(Obj(values), key), []);
  }

  /** A path `a.b` reads field `b` of the record in field `a`. */
  lemma ReadNestedField(values: map<string, Val>, a: string, b: string)
    requires '.' !in a && '.' !in b
    requires a in values && values[a].Obj?
    ensures GetNestedValue(values, a + "." + b) == Member(values[a], b)
  {
    Text.SplitAfterSegment(a, b, '.');
    Text.SplitNoSeparator(b, '.');
    assert a + "." + b == a + ['.'] + b;
    var parts := [a, b];
    assert parts[1..] == [b];
    assert GetIn(Obj(values), parts) == GetIn(values[a], [b]);
    assert GetIn(values[a], [b]) == GetIn(Member(values[a], b), []);
  }

  /** The walk stops at the first falsy value it meets and returns that value. */
  lemma {:induction false} FalsyStops(acc: Val, parts: seq<string>)
    requires !Truthy(acc)
    ensures GetIn(acc, parts) == acc
    decreases |parts|
  {
    if |parts| > 0 {
      FalsyStops(acc, parts[1..]);
    }
  }

  /** A missing segment yields `undefined` instead of failing. */
  lemma MissingSegment(m: map<string, Val>, key: string, rest: seq<string>)
    requires key !in m
    ensures GetIn(Obj(m), [key] + rest) == Undefined
  {
    assert ([key] + rest)[1..] == rest;
    FalsyStops(Undefined, rest);
  }

  /** The walk over a path's segments reads the walk of its first segments, then the rest. */
  lemma {:induction false} GetInAppend(acc: Val, p: seq<string>, q: seq<string>)
    ensures GetIn(acc, p + q) == GetIn(GetIn(acc, p), q)
    decreases |p|
  {
    if |p| == 0 {
      assert p + q == q;
    } else {
      assert (p + q)[1..] == p[1..] + q;
      GetInAppend(if Truthy(acc) then Member(acc, p[0]) else acc, p[1..], q);
    }
  }

  /** `setNestedValue` on a record's fields: each missing or falsy intermediate becomes
      `{}`, the last segment is assigned. Assigning a property of a truthy primitive
      is a TypeError in strict-mode code; that outcome is `None`. */
  function SetIn(m: map<string, Val>, parts: seq<string>, value: Val): (r: Option<map<string, Val>>)
    requires |parts| >= 1
    ensures r.Some? ==> parts[0] in r.value
    ensures r.Some? ==> forall k :: k != parts[0] ==> (k in r.value <==> k in m) && (k in m ==> r.value[k] == m[k])
    decreases |parts|
  {
    var key := parts[0];
    if |parts| == 1 then Some(m[key := value])
    else
      var child := if key in m && Truthy(m[key]) then m[key] else Obj(map[]);
      match child
      case Obj(fields) =>
        (match SetIn(fields, parts[1..], value)
         case Some(fields') => Some(m[key := Obj(fields')])
         case None => None)
      case _ => None
  }

  /** `setNestedValue(obj, path, value)`: after a successful write the path reads back
      the value written, and every top-level key other than the path's first segment is
      as it was. */
  function SetNestedValue(values: map<string, Val>, path: string, value: Val): (r: Option<map<string, Val>>)
    ensures r.Some? ==> GetNestedValue(r.value, path) == value
    ensures r.Some? ==> forall k :: k != Text.Split(path, '.')[0] ==>
      (k in r.value <==> k in values) && (k in values ==> r.value[k] == values[k])
  {
    var parts := Text.Split(path, '.');
    var r := SetIn(values, parts, value);
    if r.Some? then
      GetAfterSet(values, parts, value);
      r
    else r
  }

  /** Reading a path right after setting it returns the value set. */
  lemma {:induction false} GetAfterSet(m: map<string, Val>, parts: seq<string>, value: Val)
    requires |parts| >= 1
    requires SetIn(m, parts, value).Some?
    ensures GetIn(Obj(SetIn(m, parts, value).value), parts) == value
    decreases |parts|
  {
    var m' := SetIn(m, parts, value).value;
    var key := parts[0];
    if |parts| == 1 {
      assert GetIn(Obj(m'), parts) == GetIn(value, parts[1..]);
    } else {
      var child := if key in m && Truthy(m[key]) then m[key] else Obj(map[]);
      GetAfterSet(child.fields, parts[1..], value);
    }
  }

  /** Setting a path leaves every path that branches off it unchanged, provided the
      shared segments already led through records (a falsy intermediate on the shared
      part is replaced by `{}`, which changes what reads through it). */
  lemma {:induction false} SetLeavesOtherPaths(m: map<string, Val>, p: seq<string>, value: Val, q: seq<string>, i: nat)
    requires |p| >= 1 && SetIn(m, p, value).Some?
    requires i < |p| && i < |q| && q[..i] == p[..i] && q[i] != p[i]
    requires forall j :: 1 <= j <= i ==> GetIn(Obj(m), p[..j]).Obj?
    ensures GetIn(Obj(SetIn(m, p, value).value), q) == GetIn(Obj(m), q)
    decreases i
  {
    var m' := SetIn(m, p, value).value;
    var key := q[0];
    assert GetIn(Obj(m'), q) == GetIn(Member(Obj(m'), key), q[1..]);
    assert GetIn(Obj(m), q) == GetIn(Member(Obj(m), key), q[1..]);
    if i > 0 {
      assert p[0] == key by { assert q[..i][0] == p[..i][0]; }
      assert GetIn(Obj(m), p[..1]) == GetIn(Member(Obj(m), key), []) by {
        assert p[..1][1..] == [];
      }
      var child := m[key];
      assert child.Obj?;
      var fields' := SetIn(child.fields, p[1..], value).value;
      assert m'[key] == Obj(fields');
      forall j | 1 <= j <= i - 1
        ensures GetIn(Obj(child.fields), p[1..][..j]).Obj?
      {
        assert p[..j + 1] == [key] + p[1..][..j];
        GetInAppend(Obj(m), [key], p[1..][..j]);
        assert GetIn(Obj(m), [key]) == GetIn(Obj(m), p[..1]);
      }
      assert q[1..][..i - 1] == p[1..][..i - 1];
      SetLeavesOtherPaths(child.fields, p[1..], value, q[1..], i - 1);
    }
  }

  /** Setting a path never fails when every proper prefix of it reads a record or a
      falsy value, and it creates `{}` for each falsy intermediate. */
  ghost predicate RecordsAlong(m: map<string, Val>, parts: seq<string>) {
    forall k :: 1 <= k < |parts| ==> GetIn(Obj(m), parts[..k]).Obj? || !Truthy(GetIn(Obj(m), parts[..k]))
  }

  lemma {:induction false} SetSucceedsAlongRecords(m: map<string, Val>, parts: seq<string>, value: Val)
    requires |parts| >= 1
    requires RecordsAlong(m, parts)
    ensures SetIn(m, parts, value).Some?
    decreases |parts|
  {
    if |parts| > 1 {
      var key := parts[0];
      assert parts[..1] == [key];
      var first := GetIn(Obj(m), [key]);
      assert first == Member(Obj(m), key) by {
        assert [key][1..] == [];
        assert GetIn(Obj(m), [key]) == GetIn(Member(Obj(m), key), []);
      }
      assert Truthy(first) ==> first.Obj?;
      var child := if key in m && Truthy(m[key]) then m[key] else Obj(map[]);
      forall k | 1 <= k < |parts[1..]|
        ensures GetIn(Obj(child.fields), parts[1..][..k]).Obj? || !Truthy(GetIn(Obj(child.fields), parts[1..][..k]))
      {
        var rest := parts[1..][..k];
        assert parts[..k + 1] == [key] + rest;
        GetInAppend(Obj(m), [key], rest);
        if Truthy(first) {
          assert child == first;
        } else {
          EmptyRecordWalk(rest);
        }
      }
      SetSucceedsAlongRecords(child.fields, parts[1..], value);
    }
  }

  /** Walking an empty record gives `undefined` after one step. */
  lemma EmptyRecordWalk(parts: seq<string>)
    ensures |parts| == 0 ==> GetIn(Obj(map[]), parts) == Obj(map[])
    ensures |parts| > 0 ==> GetIn(Obj(map[]), parts) == Undefined
  {
    if |parts| > 0 {
      FalsyStops(Undefined, parts[1..]);
    }
  }

  /** A missing or falsy first segment is replaced by a fresh record holding only the
      rest of the path. */
  lemma FalsyIntermediateBecomesRecord(m: map<string, Val>, parts: seq<string>, value: Val)
    requires |parts| >= 2
    requires parts[0] !in m || !Truthy(m[parts[0]])
    requires SetIn(m, parts, value).Some?
    ensures SetIn(map[], parts[1..], value).Some?
    ensures SetIn(m, parts, value).value[parts[0]] == Obj(SetIn(map[], parts[1..], value).value)
  {
  }

  // ---------------------------------------------------------------------------
  // The hook's state and handlers

  /** A field rule: given the field's value and the form's current values (the
      password-confirmation rule reads the password), a message or `null`. */
  type Rule = (Val, map<string, Val>) -> Option<string>

  /** `touched` only ever records `true`, so it is a set of field names. */
  datatype Form = Form(values: map<string, Val>, errors: map<string, Option<string>>, touched: set<string>)

  /** The state before any interaction. */
  function InitialForm(initial: map<string, Val>): Form {
    Form(initial, map[], {})
  }

  /** The rule's verdict on the field's current value. */
  function RuleResult(rules: map<string, Rule>, values: map<string, Val>, field: string): Option<string>
    requires field in rules
  {
    rules[field](GetNestedValue(values, field), values)
  }

  /** `if (error)`: a rule fails when it returns a non-empty message. */
  predicate Fails(rules: map<string, Rule>, values: map<string, Val>, field: string)
    requires field in rules
  {
    var e := RuleResult(rules, values, field);
    e.Some? && e.value != ""
  }

  /** The error entry `validateAll` writes for a rule key. */
  function ValidationEntry(rules: map<string, Rule>, values: map<string, Val>, field: string): Option<string>
    requires field in rules
  {
    if Fails(rules, values, field) then RuleResult(rules, values, field) else None
  }

  /** Every rule passes on its field's current value. */
  predicate AllValid(rules: map<string, Rule>, values: map<string, Val>) {
    forall field :: field in rules ==> !Fails(rules, values, field)
  }

  /** `handleChange(field, value)`: writes the value at the dotted path; re-validates
      the field, on the new value, only when it is already touched and has a rule.
      `None` when the write throws. */
  function HandleChange(f: Form, rules: map<string, Rule>, field: string, value: Val): (r: Option<Form>)
    ensures r.Some? <==> SetNestedValue(f.values, field, value).Some?
    ensures r.Some? ==> r.value.values == SetNestedValue(f.values, field, value).value
    ensures r.Some? ==> r.value.touched == f.touched
    ensures r.Some? && !(field in f.touched && field in rules) ==> r.value.errors == f.errors
    ensures r.Some? && field in f.touched && field in rules ==>
      r.value.errors == f.errors[field := rules[field](value, f.values)]
  {
    match SetNestedValue(f.values, field, value)
    case None => None
    case Some(values') =>
      var errors' := if field in f.touched && field in rules then f.errors[field := rules[field](value, f.values)] else f.errors;
      Some(Form(values', errors', f.touched))
  }

  /** `handleBlur(field)`: marks the field touched and, when it has a rule, stores the
      rule's verdict on the field's current value. */
  function HandleBlur(f: Form, rules: map<string, Rule>, field: string): (f': Form)
    ensures f'.touched == f.touched + {field} && f'.values == f.values
    ensures field in rules ==> f'.errors == f.errors[field := RuleResult(rules, f.values, field)]
    ensures field !in rules ==> f'.errors == f.errors
  {
    var errors' := if field in rules then f.errors[field := rules[field](GetNestedValue(f.values, field), f.values)] else f.errors;
    Form(f.values, errors', f.touched + {field})
  }

  /** `validateAll()`: runs every rule, replaces the error map with one entry per rule
      key (the message for a failing field, `null` for a passing one), and reports
      whether all passed. */
  method ValidateAll(f: Form, rules: map<string, Rule>) returns (isValid: bool, f': Form)
    ensures isValid <==> AllValid(rules, f.values)
    ensures f'.values == f.values && f'.touched == f.touched
    ensures f'.errors.Keys == rules.Keys
    ensures forall field :: field in rules ==> f'.errors[field] == ValidationEntry(rules, f.values, field)
  {
    var remaining := rules.Keys;
    var errors: map<string, Option<string>> := map[];
    isValid := true;
    while remaining != {}
      invariant remaining <= rules.Keys
      invariant errors.Keys == rules.Keys - remaining
      invariant forall field :: field in errors ==> errors[field] == ValidationEntry(rules, f.values, field)
      invariant isValid <==> forall field :: field in rules && field !in remaining ==> !Fails(rules, f.values, field)
      decreases remaining
    {
      var field :| field in remaining;
      var error := rules[field](GetNestedValue(f.values, field), f.values);
      if error.Some? && error.value != "" {
        errors := errors[field := error];
        isValid := false;
      } else {
        errors := errors[field := None];
      }
      remaining := remaining - {field};
    }
    f' := Form(f.values, errors, f.touched);
  }

  /** `resetForm()`: back to the initial values with no errors and nothing touched. */
  function ResetForm(f: Form, initial: map<string, Val>): (f': Form)
    ensures f' == InitialForm(initial)
  {
    Form(initial, map[], {})
  }

  /** After a reset no change re-validates anything: errors stay empty until a blur. */
  lemma ResetThenChange(f: Form, initial: map<string, Val>, rules: map<string, Rule>, field: string, value: Val)
    requires HandleChange(ResetForm(f, initial), rules, field, value).Some?
    ensures HandleChange(ResetForm(f, initial), rules, field, value).value.errors == map[]
  {
  }
}
