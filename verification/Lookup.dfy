/**
 A map lookup from bytes to value: `cbor_value_map_find_value` and reading the element it finds come
 to looking the key up in the value of the map, as a list of pairs (src/tinycbor/cborparser.c).
 */
module Lookups {
  import opened Bytes
  import opened Wrappers
  import opened Errors
  import opened Syntax
  import opened Values
  import opened Limits
  import opened Places
  import opened Parser
  import opened Traversal
  import opened MapLookup
  import opened Reader

  function Untagged(v: Value): Value {
    match v
    case Tagged(_, content) => Untagged(content)
    case _ => v
  }

  /** The value of the first pair whose key is the text, under any tags. */
  function Lookup(items: seq<Value>, text: seq<byte>): Option<Value> {
    if |items| < 2 then None
    else if Untagged(items[0]) == Str(true, text) then Some(items[1])
    else Lookup(items[2..], text)
  }

  lemma {:induction false} IsTextValue(c: Cst, text: seq<byte>)
    ensures IsText(c, text) <==> Untagged(ToValue(c)) == Str(true, text)
  {
    if c.Tag? {
      IsTextValue(c.item, text);
    }
  }

  lemma ToValuesAt(items: seq<Cst>, i: nat)
    requires i < |items|
    ensures ToValues(items)[i] == ToValue(items[i])
  {
  }

  lemma ToValuesRest(items: seq<Cst>)
    requires |items| >= 2
    ensures ToValues(items)[0] == ToValue(items[0]) && ToValues(items)[1] == ToValue(items[1])
    ensures ToValues(items)[2..] == ToValues(items[2..])
  {
    hide ToValues;
    ToValuesAt(items, 0);
    ToValuesAt(items, 1);
    var a, b := ToValues(items)[2..], ToValues(items[2..]);
    forall i | 0 <= i < |a|
      ensures a[i] == b[i]
    {
      ToValuesAt(items, i + 2);
      ToValuesAt(items[2..], i);
    }
  }

  lemma {:induction false} AbsentNone(items: seq<Cst>, text: seq<byte>)
    requires Absent(items, text)
    ensures Lookup(ToValues(items), text) == None
    decreases |items|
  {
    if |items| >= 2 {
      IsTextValue(items[0], text);
      ToValuesRest(items);
      AbsentRest(items, text);
      AbsentNone(items[2..], text);
    }
  }

  lemma AbsentRest(items: seq<Cst>, text: seq<byte>)
    requires |items| >= 2 && Absent(items, text)
    ensures !IsText(items[0], text) && Absent(items[2..], text)
  {
    forall i | 0 <= i < |items[2..]| && i % 2 == 0
      ensures !IsText(items[2..][i], text)
    {
      assert (i + 2) % 2 == 0 && items[2..][i] == items[i + 2];
    }
  }

  lemma {:induction false} FirstFound(items: seq<Cst>, text: seq<byte>, at: nat)
    requires FirstKey(items, text, at)
    ensures Lookup(ToValues(items), text) == Some(ToValue(items[at + 1]))
    decreases |items|
  {
    IsTextValue(items[0], text);
    ToValuesRest(items);
    if at > 0 {
      var rest := items[2..];
      AbsentRest(items[..at], text);
      assert items[..at][2..] == rest[..at - 2] && items[..at][0] == items[0];
      assert rest[at - 2] == items[at] && rest[at - 1] == items[at + 1];
      FirstFound(rest, text, at - 2);
    }
  }

  /** What lies ahead of the element found starts with the value looked up. */
  lemma ElementValue(element: CborValue)
    requires element.OnItem() && Rest(element).Ok? && Rest(element).value != []
    ensures ParseItem(element.data, element.ptr).Ok?
    ensures ParseItem(element.data, element.ptr).value == Rest(element).value[0]
  {
    StepAhead(element.data, element.ptr, element.remaining, true, element.key);
  }

  /**
   On a buffer that starts with a map of countable lengths, at most 1025 containers deep: the value
   of the first matching pair, or none if there is no such pair.
   */
  method FindValue(data: seq<byte>, text: seq<byte>) returns (err: CborError, v: Option<Value>)
    requires |data| < TWO_64 && 0 !in text
    ensures forall c | StartsWithItem(data, 0, c) && c.Container? && c.isMap && Depth(c) <= 1025 && CountsFit(c) ::
              err == NoError && v == Lookup(ToValues(c.items), text)
  {
    v := None;
    ParseExact(data, 0);
    var it;
    it, err := CborValue.Init(data);
    if err != NoError {
      BadHead(data, 0);
      return;
    }
    if it.typ != MAP {
      NoMap(it);
      return;
    }
    var element;
    ghost var at;
    err, element, at := MapFindValue(it, text);
    if err != NoError {
      return;
    }
    if element.typ == INVALID {
      Missing(data, text);
      return;
    }
    ghost var c := ParseItem(data, 0);
    if c.Ok? && c.value.Container? && Depth(c.value) <= 1025 && CountsFit(c.value) {
      Present(c.value, text, at, element);
    }
    var w;
    err, w := ReadItem(element, |data|);
    v := if err == NoError then Some(w) else None;
  }

  lemma NoMap(it: CborValue)
    requires it.OnItem() && it.ptr == 0 && it.typ != MAP
    ensures ParseItem(it.data, 0).Ok? ==>
              !(ParseItem(it.data, 0).value.Container? && ParseItem(it.data, 0).value.isMap)
  {
  }

  lemma Missing(data: seq<byte>, text: seq<byte>)
    ensures var r := ParseItem(data, 0);
            r.Ok? && r.value.Container? && Absent(r.value.items, text) ==>
              Lookup(ToValues(r.value.items), text) == None
  {
    var r := ParseItem(data, 0);
    if r.Ok? && r.value.Container? && Absent(r.value.items, text) {
      AbsentNone(r.value.items, text);
    }
  }

  lemma Present(c: Cst, text: seq<byte>, at: nat, element: CborValue)
    requires c.Container? && FirstKey(c.items, text, at) && element.OnItem()
    requires Depth(c) <= 1025 && CountsFit(c) && Wf(c)
    requires Rest(element).Ok? && Rest(element).value == c.items[at + 1..]
    ensures ParseItem(element.data, element.ptr).Ok?
    ensures Lookup(ToValues(c.items), text) == Some(ValueAt(element))
    ensures AfterItem(element, |element.data|) != Bad
  {
    FirstFound(c.items, text, at);
    ElementValue(element);
    var s, p := element.data, element.ptr;
    ParseSound(s, p);
    DepthBounded(ParseItem(s, p).value);
    FitsIs(ParseItem(s, p).value, |s|);
    StepAhead(s, p, element.remaining, true, element.key);
  }
}
