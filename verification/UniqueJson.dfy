/** Duplicate-field rejection on JSON token streams (internal/product/discussions.go). */
module UniqueJson {
  import opened Wrappers

  /** The tokens of encoding/json's decoder: commas and colons are its own business. */
  datatype Token = ObjectOpen | ObjectClose | ArrayOpen | ArrayClose | Text(text: string) | Scalar(id: int)

  datatype Value = StringValue(text: string) | ScalarValue(id: int) | Object(fields: seq<Field>) | Array(items: seq<Value>)
  datatype Field = Field(name: string, value: Value)

  // ----- values and their token streams

  function Tokens(v: Value): (ts: seq<Token>)
    ensures |ts| > 0
    decreases v, 1
  {
    match v
    case StringValue(text) => [Text(text)]
    case ScalarValue(id) => [Scalar(id)]
    case Object(fields) => [ObjectOpen] + FieldTokens(fields) + [ObjectClose]
    case Array(items) => [ArrayOpen] + ItemTokens(items) + [ArrayClose]
  }

  function FieldTokens(fields: seq<Field>): seq<Token>
    decreases fields, 0
  {
    if fields == [] then [] else [Text(fields[0].name)] + Tokens(fields[0].value) + FieldTokens(fields[1..])
  }

  function ItemTokens(items: seq<Value>): seq<Token>
    decreases items, 0
  {
    if items == [] then [] else Tokens(items[0]) + ItemTokens(items[1..])
  }

  ghost predicate DistinctNames(fields: seq<Field>) {
    forall i, j :: 0 <= i < j < |fields| ==> fields[i].name != fields[j].name
  }

  /** Every object at every depth has distinct names (section 4 of RFC 8259). */
  ghost predicate Unique(v: Value) {
    match v
    case StringValue(_) => true
    case ScalarValue(_) => true
    case Object(fields) => DistinctNames(fields) && forall i :: 0 <= i < |fields| ==> Unique(fields[i].value)
    case Array(items) => forall i :: 0 <= i < |items| ==> Unique(items[i])
  }

  ghost predicate UniqueFields(fields: seq<Field>, seen: set<string>) {
    && DistinctNames(fields)
    && (forall i :: 0 <= i < |fields| ==> fields[i].name !in seen)
    && (forall i :: 0 <= i < |fields| ==> Unique(fields[i].value))
  }

  ghost predicate UniqueItems(items: seq<Value>) {
    forall i :: 0 <= i < |items| ==> Unique(items[i])
  }

  // ----- consuming a token stream

  /** What is left after one value with unique names, if there is one. */
  function Consume(ts: seq<Token>): (rest: Option<seq<Token>>)
    ensures rest.Some? ==> |rest.value| < |ts|
    decreases |ts|, 0
  {
    if ts == [] then None
    else match ts[0]
      case Text(_) => Some(ts[1..])
      case Scalar(_) => Some(ts[1..])
      case ObjectOpen => ConsumeFields(ts[1..], {})
      case ArrayOpen => ConsumeItems(ts[1..])
      case ObjectClose => None
      case ArrayClose => None
  }

  function ConsumeFields(ts: seq<Token>, seen: set<string>): (rest: Option<seq<Token>>)
    ensures rest.Some? ==> |rest.value| < |ts|
    decreases |ts|, 1
  {
    if ts == [] then None
    else match ts[0]
      case ObjectClose => Some(ts[1..])
      case Text(name) =>
        if name in seen then None
        else
          var after := Consume(ts[1..]);
          if after.None? then None else ConsumeFields(after.value, seen + {name})
      case _ => None
  }

  function ConsumeItems(ts: seq<Token>): (rest: Option<seq<Token>>)
    ensures rest.Some? ==> |rest.value| < |ts|
    decreases |ts|, 1
  {
    if ts == [] then None
    else match ts[0]
      case ArrayClose => Some(ts[1..])
      case ObjectClose => None
      case _ =>
        var after := Consume(ts);
        if after.None? then None else ConsumeItems(after.value)
  }

  // ----- the two directions

  /** On the tokens of any value followed by anything, consuming leaves exactly the rest, if and only if names are unique. */
  lemma {:induction false} ConsumeTokens(v: Value, rest: seq<Token>)
    ensures Consume(Tokens(v) + rest) == if Unique(v) then Some(rest) else None
    decreases v, 1
  {
    var ts := Tokens(v) + rest;
    match v
    case StringValue(_) =>
      assert ts[1..] == rest;
    case ScalarValue(_) =>
      assert ts[1..] == rest;
    case Object(fields) =>
      assert ts[1..] == FieldTokens(fields) + ([ObjectClose] + rest);
      ConsumeFieldTokens(fields, {}, rest);
    case Array(items) =>
      assert ts[1..] == ItemTokens(items) + ([ArrayClose] + rest);
      ConsumeItemTokens(items, rest);
  }

  lemma {:induction false} ConsumeFieldTokens(fields: seq<Field>, seen: set<string>, rest: seq<Token>)
    ensures ConsumeFields(FieldTokens(fields) + ([ObjectClose] + rest), seen) == if UniqueFields(fields, seen) then Some(rest) else None
    decreases fields, 0
  {
    var ts := FieldTokens(fields) + ([ObjectClose] + rest);
    if fields == [] {
      assert ts[1..] == rest;
    } else {
      var name, tail := fields[0].name, FieldTokens(fields[1..]) + ([ObjectClose] + rest);
      assert ts[0] == Text(name) && ts[1..] == Tokens(fields[0].value) + tail;
      ConsumeTokens(fields[0].value, tail);
      ConsumeFieldTokens(fields[1..], seen + {name}, rest);
      UniqueFieldsStep(fields, seen);
    }
  }

  lemma UniqueFieldsStep(fields: seq<Field>, seen: set<string>)
    requires fields != []
    ensures UniqueFields(fields, seen) <==>
      fields[0].name !in seen && Unique(fields[0].value) && UniqueFields(fields[1..], seen + {fields[0].name})
  {
  }

  lemma {:induction false} ConsumeItemTokens(items: seq<Value>, rest: seq<Token>)
    ensures ConsumeItems(ItemTokens(items) + ([ArrayClose] + rest)) == if UniqueItems(items) then Some(rest) else None
    decreases items, 0
  {
    var ts := ItemTokens(items) + ([ArrayClose] + rest);
    if items == [] {
      assert ts[1..] == rest;
    } else {
      var tail := ItemTokens(items[1..]) + ([ArrayClose] + rest);
      assert ts == Tokens(items[0]) + tail;
      assert !ts[0].ArrayClose? && !ts[0].ObjectClose?;
      ConsumeTokens(items[0], tail);
      ConsumeItemTokens(items[1..], rest);
      assert UniqueItems(items) <==> Unique(items[0]) && UniqueItems(items[1..]) by {
        assert items == [items[0]] + items[1..];
      }
    }
  }

  /** Conversely, whatever is consumed is the token stream of a value with unique names. */
  lemma {:induction false} ConsumedIsValue(ts: seq<Token>) returns (v: Value)
    requires Consume(ts).Some?
    ensures Unique(v) && ts == Tokens(v) + Consume(ts).value
    decreases |ts|, 0
  {
    match ts[0]
    case Text(text) =>
      v := StringValue(text);
    case Scalar(id) =>
      v := ScalarValue(id);
    case ObjectOpen =>
      var fields := ConsumedIsFields(ts[1..], {});
      v := Object(fields);
    case ArrayOpen =>
      var items := ConsumedIsItems(ts[1..]);
      v := Array(items);
  }

  lemma {:induction false} ConsumedIsFields(ts: seq<Token>, seen: set<string>) returns (fields: seq<Field>)
    requires ConsumeFields(ts, seen).Some?
    ensures UniqueFields(fields, seen) && ts == FieldTokens(fields) + ([ObjectClose] + ConsumeFields(ts, seen).value)
    decreases |ts|, 1
  {
    hide UniqueFields, Unique, Consume, Tokens, FieldTokens;
    if ts[0].ObjectClose? {
      fields := [];
      NoFields(seen);
      assert ts == [ObjectClose] + ts[1..];
    } else {
      var name := ts[0].text;
      var v := ConsumedIsValue(ts[1..]);
      var tail := ConsumedIsFields(Consume(ts[1..]).value, seen + {name});
      fields := [Field(name, v)] + tail;
      assert fields[0] == Field(name, v) && fields[1..] == tail;
      UniqueFieldsStep(fields, seen);
      assert ts == [Text(name)] + ts[1..];
      FieldTokensStep(name, v, tail, [ObjectClose] + ConsumeFields(ts, seen).value);
    }
  }

  lemma NoFields(seen: set<string>)
    ensures UniqueFields([], seen) && FieldTokens([]) == []
  {
  }

  lemma FieldTokensStep(name: string, v: Value, tail: seq<Field>, rest: seq<Token>)
    ensures FieldTokens([Field(name, v)] + tail) + rest == [Text(name)] + (Tokens(v) + (FieldTokens(tail) + rest))
  {
    var fields := [Field(name, v)] + tail;
    assert fields[1..] == tail;
  }

  lemma {:induction false} ConsumedIsItems(ts: seq<Token>) returns (items: seq<Value>)
    requires ConsumeItems(ts).Some?
    ensures UniqueItems(items) && ts == ItemTokens(items) + ([ArrayClose] + ConsumeItems(ts).value)
    decreases |ts|, 1
  {
    if ts[0].ArrayClose? {
      items := [];
    } else {
      var v := ConsumedIsValue(ts);
      var tail := ConsumedIsItems(Consume(ts).value);
      items := [v] + tail;
      assert items[1..] == tail;
    }
  }

  // ----- the decoder and the recursive descent

  class Decoder {
    const tokens: seq<Token>
    var pos: nat

    ghost predicate Valid()
      reads this
    {
      pos <= |tokens|
    }

    ghost function Rest(): seq<Token>
      requires Valid()
      reads this
    {
      tokens[pos..]
    }

    constructor (tokens: seq<Token>)
      ensures Valid() && Rest() == tokens && pos == 0 && this.tokens == tokens
    {
      this.tokens, pos := tokens, 0;
    }

    method Next() returns (token: Option<Token>)
      requires Valid()
      modifies this
      ensures Valid() && pos >= old(pos)
      ensures if old(Rest()) == [] then token == None && pos == old(pos)
              else token == Some(old(Rest())[0]) && Rest() == old(Rest())[1..] && pos == old(pos) + 1
    {
      if pos == |tokens| {
        return None;
      }
      token := Some(tokens[pos]);
      pos := pos + 1;
    }

    /** Whether the enclosing object or array goes on. */
    method More() returns (more: bool)
      requires Valid()
      ensures more <==> Rest() != [] && !Rest()[0].ObjectClose? && !Rest()[0].ArrayClose?
    {
      return pos < |tokens| && !tokens[pos].ObjectClose? && !tokens[pos].ArrayClose?;
    }
  }

  method ConsumeUniqueJsonValue(decoder: Decoder) returns (ok: bool)
    requires decoder.Valid()
    modifies decoder
    ensures decoder.Valid() && decoder.pos >= old(decoder.pos)
    ensures ok <==> Consume(old(decoder.Rest())).Some?
    ensures ok ==> decoder.Rest() == Consume(old(decoder.Rest())).value && decoder.pos > old(decoder.pos)
    decreases |decoder.tokens| - decoder.pos
  {
    ghost var start := decoder.Rest();
    var token := decoder.Next();
    if token.None? {
      return false;
    }
    match token.value
    case Text(_) =>
      return true;
    case Scalar(_) =>
      return true;
    case ObjectOpen =>
      var seen: set<string> := {};
      var more := decoder.More();
      while more
        invariant decoder.Valid() && decoder.pos > old(decoder.pos)
        invariant Consume(start) == ConsumeFields(decoder.Rest(), seen)
        invariant more <==> decoder.Rest() != [] && !decoder.Rest()[0].ObjectClose? && !decoder.Rest()[0].ArrayClose?
        decreases |decoder.tokens| - decoder.pos
      {
        var key := decoder.Next();
        if key.None? || !key.value.Text? || key.value.text in seen {
          return false;
        }
        seen := seen + {key.value.text};
        var inner := ConsumeUniqueJsonValue(decoder);
        if !inner {
          return false;
        }
        more := decoder.More();
      }
      var closing := decoder.Next();
      return closing == Some(ObjectClose);
    case ArrayOpen =>
      var more := decoder.More();
      while more
        invariant decoder.Valid() && decoder.pos > old(decoder.pos)
        invariant Consume(start) == ConsumeItems(decoder.Rest())
        invariant more <==> decoder.Rest() != [] && !decoder.Rest()[0].ObjectClose? && !decoder.Rest()[0].ArrayClose?
        decreases |decoder.tokens| - decoder.pos
      {
        var inner := ConsumeUniqueJsonValue(decoder);
        if !inner {
          return false;
        }
        more := decoder.More();
      }
      var closing := decoder.Next();
      return closing == Some(ArrayClose);
    case ObjectClose =>
      return false;
    case ArrayClose =>
      return false;
  }

  /** A document is accepted exactly when it is one value of the required kind, with unique names throughout. */
  method ValidateUniqueJson(tokens: seq<Token>, root: Token, utf8: bool) returns (ok: bool)
    requires root == ObjectOpen || root == ArrayOpen
    ensures ok <==> utf8 && tokens != [] && tokens[0] == root && exists v :: Unique(v) && tokens == Tokens(v)
  {
    if |tokens| == 0 || tokens[0] != root || !utf8 {
      return false;
    }
    var decoder := new Decoder(tokens);
    var consumed := ConsumeUniqueJsonValue(decoder);
    if consumed {
      var v := ConsumedIsValue(tokens);
      if decoder.pos == |tokens| {
        assert Tokens(v) + [] == Tokens(v);
      }
    }
    forall v | Unique(v) && tokens == Tokens(v) ensures consumed && decoder.Rest() == [] {
      ConsumeTokens(v, []);
      assert Tokens(v) + [] == tokens;
    }
    return consumed && decoder.pos == |tokens|;
  }
}
