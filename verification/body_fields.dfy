/**
 Reading a backup body: one `name = JSON` field after another, comments and blank lines skipped,
 and a stop at the first line that is none of these.
 */
module BodyFields {
  import opened Bytes
  import opened BodyText
  import opened Wrappers

  /** Whether some text is one well-formed JSON value. */
  type Json = Text -> bool

  datatype Field = Field(key: Text, raw: Text)

  const SETTING_PREFIX: Text := Ascii("setting.")

  /** `Field::setting` */
  function SettingName(key: Text): Option<Text> {
    if |key| >= |SETTING_PREFIX| && key[..|SETTING_PREFIX|] == SETTING_PREFIX then Some(key[|SETTING_PREFIX|..]) else None
  }

  lemma SettingNameOfPrefixed(name: Text)
    ensures SettingName(SETTING_PREFIX + name) == Some(name)
  {
    assert (SETTING_PREFIX + name)[..|SETTING_PREFIX|] == SETTING_PREFIX;
    assert (SETTING_PREFIX + name)[|SETTING_PREFIX|..] == name;
  }

  /** `split_field` */
  function SplitField(line: Text, valid: Json): Result<Field> {
    var eq := IndexOf(line, EQUALS);
    if eq == |line| then Err(MalformedLine) else
      var key, raw := Trim(line[..eq], Blank), Trim(line[eq + 1..], Blank);
      if !NameOk(key) then Err(MalformedLine)
      else if raw == [] || !valid(raw) then Err(NotJson)
      else Ok(Field(key, raw))
  }

  /** The first line of some text, and the text after it. */
  function FirstLine(text: Text): (r: (Text, Text))
    requires text != []
    ensures |r.1| < |text|
  {
    var i := IndexOf(text, LF);
    if i < |text| then (text[..i], text[i + 1..]) else (text, [])
  }

  /** A trimmed line that is not a field. */
  predicate Skipped(line: Text) {
    line == [] || line[0] == HASH
  }

  /** All the fields of a body, up to the first line that is not one. */
  function FieldsOf(text: Text, valid: Json): seq<Result<Field>>
    decreases |text|
  {
    if text == [] then []
    else
      var (raw, rest) := FirstLine(text);
      var line := Trim(raw, LineBlank);
      if Skipped(line) then FieldsOf(rest, valid)
      else
        match SplitField(line, valid)
        case Ok(f) => [Ok(f)] + FieldsOf(rest, valid)
        case Err(e) => [Err(e)]
  }

  lemma {:induction false} NextFields(text: Text, valid: Json)
    ensures text == [] ==> FieldsOf(text, valid) == []
    ensures text != [] ==>
              var line := Trim(FirstLine(text).0, LineBlank);
              var rest := FieldsOf(FirstLine(text).1, valid);
              FieldsOf(text, valid) == if Skipped(line) then rest
                                       else if SplitField(line, valid).Ok? then [SplitField(line, valid)] + rest
                                       else [SplitField(line, valid)]
  {
    hide FirstLine, Trim, SplitField, Skipped;
  }

  class Fields {
    const valid: Json
    var rest: Text
    var stopped: bool

    constructor (text: Text, valid: Json)
      ensures rest == text && !stopped && this.valid == valid
    {
      this.valid := valid;
      rest := text;
      stopped := false;
    }

    /** What is still to come. */
    ghost function ToCome(): seq<Result<Field>>
      reads this
    {
      if stopped then [] else FieldsOf(rest, valid)
    }

    /** The next field, or the error that ends the walk, or nothing. */
    method Next() returns (r: Option<Result<Field>>)
      modifies this
      ensures r.None? <==> old(ToCome()) == []
      ensures r.Some? ==> old(ToCome()) == [r.value] + ToCome()
      ensures r.Some? && r.value.Err? ==> stopped
    {
      hide FirstLine, Trim, SplitField, Skipped, FieldsOf;
      while !stopped
        invariant ToCome() == old(ToCome())
        decreases |rest|
      {
        NextFields(rest, valid);
        if rest == [] {
          return None;
        }
        var (raw, after) := FirstLine(rest);
        var line := Trim(raw, LineBlank);
        rest := after;
        if Skipped(line) {
          continue;
        }
        var field := SplitField(line, valid);
        if field.Err? {
          stopped := true;
        }
        return Some(field);
      }
      return None;
    }
  }

  // ---------------------------------------------------------------------------
  // One piece of text after another
  // ---------------------------------------------------------------------------

  /** Whole lines. */
  predicate Complete(text: Text) {
    text == [] || text[|text| - 1] == LF
  }

  ghost predicate AllOk(fields: seq<Result<Field>>) {
    forall i :: 0 <= i < |fields| ==> fields[i].Ok?
  }

  lemma FirstLineBefore(a: Text, b: Text)
    requires a != [] && Complete(a)
    ensures FirstLine(a + b).0 == FirstLine(a).0 && FirstLine(a + b).1 == FirstLine(a).1 + b && Complete(FirstLine(a).1)
  {
    var i := IndexOf(a, LF);
    assert a[|a| - 1] == LF;
    assert i < |a|;
    forall j | 0 <= j < i ensures (a + b)[j] != LF {
      assert (a + b)[j] == a[j];
    }
    IndexOfIs(a + b, LF, i);
    assert (a + b)[..i] == a[..i] && (a + b)[i + 1..] == a[i + 1..] + b;
    if i + 1 < |a| {
      assert a[i + 1..][|a| - i - 2] == a[|a| - 1];
    }
  }

  /** The fields of whole lines and what follows them are those of the lines and then those of what follows. */
  lemma {:induction false} FieldsConcat(a: Text, b: Text, valid: Json)
    requires Complete(a) && AllOk(FieldsOf(a, valid))
    ensures FieldsOf(a + b, valid) == FieldsOf(a, valid) + FieldsOf(b, valid)
    decreases |a|
  {
    hide FirstLine, Trim, SplitField, Skipped;
    if a == [] {
      assert a + b == b;
    } else {
      FirstLineBefore(a, b);
      var (raw, rest) := FirstLine(a);
      var line := Trim(raw, LineBlank);
      var tail := FieldsOf(rest, valid);
      if !Skipped(line) {
        var f := SplitField(line, valid);
        assert FieldsOf(a, valid)[0] == f;
        assert tail == FieldsOf(a, valid)[1..];
      }
      FieldsConcat(rest, b, valid);
    }
  }

  /** A single line. */
  lemma {:induction false} FieldsOfLine(raw: Text, valid: Json)
    requires LF !in raw
    ensures var line := Trim(raw, LineBlank);
            FieldsOf(raw + [LF], valid) == if Skipped(line) then [] else [SplitField(line, valid)]
  {
    hide Trim, SplitField, Skipped;
    var text := raw + [LF];
    forall j | 0 <= j < |raw| ensures text[j] != LF {
      assert text[j] == raw[j];
    }
    IndexOfIs(text, LF, |raw|);
    assert text[..|raw|] == raw && text[|raw| + 1..] == [];
  }
}
