/** The 0x1f-separated field codec of a note: internal/domain/policies.go and the
    split and join calls of internal/application/services.go. */
module Fields {
  import opened Common

  /** The character that separates the field values inside `flds`. */
  const SEPARATOR: char := '\U{1F}'

  datatype NoteField = NoteField(name: string, value: string)
  datatype Model = Model(id: int, fieldNames: seq<string>)

  datatype FieldError = FieldCountInvalid

  // ---------- strings.Split and strings.Join for a one-character separator ----------

  function Split(s: string): (parts: seq<string>)
    ensures |parts| > 0
  {
    if s == [] then [""]
    else if s[0] == SEPARATOR then [""] + Split(s[1..])
    else
      var rest := Split(s[1..]);
      [[s[0]] + rest[0]] + rest[1..]
  }

  function Join(parts: seq<string>): string {
    if |parts| == 0 then ""
    else if |parts| == 1 then parts[0]
    else parts[0] + [SEPARATOR] + Join(parts[1..])
  }

  /** A value that can be stored as one field. */
  predicate SeparatorFree(s: string) {
    SEPARATOR !in s
  }

  /** A list of values that survives being stored. */
  predicate Storable(values: seq<string>) {
    |values| > 0 && forall v | v in values :: SeparatorFree(v)
  }

  function CountSeparators(s: string): nat {
    if s == [] then 0 else (if s[0] == SEPARATOR then 1 else 0) + CountSeparators(s[1..])
  }

  lemma JoinCons(first: string, rest: seq<string>)
    ensures Join([first] + rest) == if rest == [] then first else first + [SEPARATOR] + Join(rest)
  {
    assert ([first] + rest)[1..] == rest;
  }

  /** A character put before the first part comes first in the joined string. */
  lemma JoinPrefixed(c: char, parts: seq<string>)
    requires |parts| > 0
    ensures Join([[c] + parts[0]] + parts[1..]) == [c] + Join(parts)
  {
    var first, rest := [c] + parts[0], parts[1..];
    JoinCons(first, rest);
    JoinCons(parts[0], rest);
    assert parts == [parts[0]] + rest;
    if rest != [] {
      Assoc([c], parts[0], [SEPARATOR]);
      Assoc([c], parts[0] + [SEPARATOR], Join(rest));
    }
  }

  /** Joining what a raw string splits into gives the raw string back. */
  lemma {:induction false} JoinSplit(s: string)
    ensures Join(Split(s)) == s
  {
    if s != [] {
      JoinSplit(s[1..]);
      var rest := Split(s[1..]);
      assert s == [s[0]] + s[1..];
      if s[0] == SEPARATOR {
        assert ([""] + rest)[1..] == rest;
      } else {
        JoinPrefixed(s[0], rest);
      }
    }
  }

  lemma {:induction false} SplitLength(s: string)
    ensures |Split(s)| == CountSeparators(s) + 1
  {
    if s != [] {
      SplitLength(s[1..]);
    }
  }

  lemma {:induction false} CountSeparatorsAppend(a: string, b: string)
    ensures CountSeparators(a + b) == CountSeparators(a) + CountSeparators(b)
  {
    if a == [] {
      assert a + b == b;
    } else {
      assert (a + b)[1..] == a[1..] + b;
      CountSeparatorsAppend(a[1..], b);
    }
  }

  lemma {:induction false} CountSeparatorsFree(s: string)
    ensures CountSeparators(s) == 0 <==> SeparatorFree(s)
  {
    if s != [] {
      CountSeparatorsFree(s[1..]);
      assert s == [s[0]] + s[1..];
    }
  }

  /** Splitting a separator-free value followed by a separator peels that value off. */
  lemma {:induction false} SplitPeels(v: string, rest: string)
    requires SeparatorFree(v)
    ensures Split(v + [SEPARATOR] + rest) == [v] + Split(rest)
  {
    var s := v + [SEPARATOR] + rest;
    if v == [] {
      assert s[1..] == rest;
    } else {
      assert s[0] == v[0] && v[0] in v && s[1..] == v[1..] + [SEPARATOR] + rest;
      SplitPeels(v[1..], rest);
      assert Split(s) == [[v[0]] + v[1..]] + Split(rest);
      assert [v[0]] + v[1..] == v;
    }
  }

  lemma {:induction false} SplitWhole(v: string)
    requires SeparatorFree(v)
    ensures Split(v) == [v]
  {
    if v != [] {
      SplitWhole(v[1..]);
      assert v[0] in v && [v[0]] + v[1..] == v;
    }
  }

  lemma {:induction false} SplitJoinStorable(values: seq<string>)
    requires Storable(values)
    ensures Split(Join(values)) == values
  {
    if |values| == 1 {
      SplitWhole(values[0]);
    } else {
      SplitJoinStorable(values[1..]);
      SplitPeels(values[0], Join(values[1..]));
    }
  }

  lemma {:induction false} JoinSeparators(values: seq<string>)
    requires |values| > 0
    ensures CountSeparators(Join(values)) >= |values| - 1
    ensures CountSeparators(Join(values)) == |values| - 1 ==> Storable(values)
  {
    CountSeparatorsFree(values[0]);
    if |values| > 1 {
      JoinSeparators(values[1..]);
      CountSeparatorsAppend(values[0] + [SEPARATOR], Join(values[1..]));
      CountSeparatorsAppend(values[0], [SEPARATOR]);
      assert values == [values[0]] + values[1..];
    }
  }

  /** What joining does, with the separator written out. */
  lemma JoinMeaning(values: seq<string>)
    ensures values == [] ==> Join(values) == ""
    ensures |values| == 1 ==> Join(values) == values[0]
    ensures |values| > 1 ==> Join(values) == values[0] + "\U{1F}" + Join(values[1..])
    ensures Storable(values) <==> values != [] && forall i | 0 <= i < |values| :: '\U{1F}' !in values[i]
  {
    assert forall i | 0 <= i < |values| :: values[i] in values;
  }

  /** The codec's exact contract: a stored list comes back, and even has the right length,
      exactly when it is non-empty and no value holds the separator. */
  lemma SplitJoin(values: seq<string>)
    ensures Split(Join(values)) == values <==> Storable(values)
    ensures |Split(Join(values))| == |values| <==> Storable(values)
  {
    SplitLength(Join(values));
    if |values| > 0 {
      JoinSeparators(values);
    }
    if Storable(values) {
      SplitJoinStorable(values);
    }
  }

  /** Splitting never yields a value that holds the separator. */
  lemma {:induction false} SplitStorable(s: string)
    ensures Storable(Split(s))
  {
    if s != [] {
      SplitStorable(s[1..]);
      var rest := Split(s[1..]);
      if s[0] != SEPARATOR {
        assert rest[0] in rest;
        forall v | v in Split(s)
          ensures SeparatorFree(v)
        {
          if v != [s[0]] + rest[0] {
            assert v in rest[1..];
          }
        }
      }
    }
  }

  // ---------- MapFields and JoinFieldValues ----------

  function Names(fields: seq<NoteField>): (names: seq<string>)
    ensures |names| == |fields|
  {
    seq(|fields|, i requires 0 <= i < |fields| => fields[i].name)
  }

  function Values(fields: seq<NoteField>): (values: seq<string>)
    ensures |values| == |fields|
  {
    seq(|fields|, i requires 0 <= i < |fields| => fields[i].value)
  }

  /** Field values labelled with the model's names, or the count error. */
  function Labelled(values: seq<string>, model: Model): Result<seq<NoteField>, FieldError> {
    if |values| != |model.fieldNames| then Err(FieldCountInvalid)
    else Ok(seq(|values|, i requires 0 <= i < |values| => NoteField(model.fieldNames[i], values[i])))
  }

  /** Labelling is invertible: it succeeds exactly on a matching count, and then names and
      values can be read back unchanged and in order. */
  lemma LabelledMeaning(values: seq<string>, model: Model)
    ensures Labelled(values, model).Ok? <==> |values| == |model.fieldNames|
    ensures Labelled(values, model).Ok? ==>
              && Values(Labelled(values, model).value) == values
              && Names(Labelled(values, model).value) == model.fieldNames
  {
  }

  method MapFields(fieldValues: seq<string>, model: Model) returns (r: Result<seq<NoteField>, FieldError>)
    ensures r == Labelled(fieldValues, model)
  {
    if |fieldValues| != |model.fieldNames| {
      return Err(FieldCountInvalid);
    }
    var result: seq<NoteField> := [];
    for i := 0 to |fieldValues|
      invariant |result| == i
      invariant forall j | 0 <= j < i :: result[j] == NoteField(model.fieldNames[j], fieldValues[j])
    {
      result := result + [NoteField(model.fieldNames[i], fieldValues[i])];
    }
    assert result == Labelled(fieldValues, model).value;
    return Ok(result);
  }

  method JoinFieldValues(fields: seq<NoteField>) returns (result: seq<string>)
    ensures result == Values(fields)
  {
    result := [];
    for i := 0 to |fields|
      invariant result == Values(fields)[..i]
    {
      result := result + [fields[i].value];
    }
  }
}
