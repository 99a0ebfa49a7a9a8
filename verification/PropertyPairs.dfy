/** Property forms, which hold pairs of keys and values: libraries/yacyproto/property_pairs.go. */
module PropertyPairs {
  import opened ByteStrings
  import opened KeyOrder
  import opened Separators
  import opened Wrappers

  const COMMA: Byte := ',' as int
  const EQUALS: Byte := '=' as int
  const OPEN: Byte := '{' as int
  const CLOSE: Byte := '}' as int

  type Properties = map<Bytes, Bytes>

  /** The white space that ASCII has. */
  predicate IsSpace(b: Byte) {
    b == ' ' as int || '\t' as int <= b <= '\r' as int
  }

  function TrimmedLeft(s: Bytes): (r: Bytes)
    ensures |r| <= |s|
  {
    if s != [] && IsSpace(s[0]) then TrimmedLeft(s[1..]) else s
  }

  function TrimmedRight(s: Bytes): (r: Bytes)
    ensures |r| <= |s|
  {
    if s != [] && IsSpace(s[|s| - 1]) then TrimmedRight(s[..|s| - 1]) else s
  }

  function Trimmed(s: Bytes): Bytes {
    TrimmedRight(TrimmedLeft(s))
  }

  predicate IsTrimmed(s: Bytes) {
    s != [] ==> !IsSpace(s[0]) && !IsSpace(s[|s| - 1])
  }

  function Parsed(parts: seq<Bytes>, props: Properties): Option<Properties> {
    if parts == [] then Some(props)
    else
      var token := Trimmed(parts[0]);
      if token == [] then Parsed(parts[1..], props)
      else
        var i := IndexOf(token, EQUALS);
        if i == 0 || i == |token| then None
        else Parsed(parts[1..], props[Trimmed(token[..i]) := Trimmed(token[i + 1..])])
  }

  function ParsedPairs(body: Bytes): Option<Properties> {
    Parsed(Split(body, COMMA), map[])
  }

  method ParsePropertyPairs(body: Bytes) returns (r: Option<Properties>)
    ensures r == ParsedPairs(body)
  {
    var props: Properties := map[];
    var parts := Split(body, COMMA);
    for n := 0 to |parts|
      invariant ParsedPairs(body) == Parsed(parts[n..], props)
    {
      var token := Trimmed(parts[n]);
      if token == [] {
        continue;
      }
      var i := IndexOf(token, EQUALS);
      if i == 0 || i == |token| {
        return None;
      }
      props := props[Trimmed(token[..i]) := Trimmed(token[i + 1..])];
    }
    r := Some(props);
  }

  function Pair(key: Bytes, value: Bytes): Bytes {
    key + ([EQUALS] + value)
  }

  /** The keys in their order. */
  function SortedKeys(props: Properties): (keys: seq<Bytes>)
    ensures forall key :: key in keys <==> key in props
  {
    Ascending(props.Keys, Itself)
  }

  function Pairs(keys: seq<Bytes>, props: Properties): (pairs: seq<Bytes>)
    requires forall i | 0 <= i < |keys| :: keys[i] in props
    ensures |pairs| == |keys|
  {
    seq(|keys|, i requires 0 <= i < |keys| => Pair(keys[i], props[keys[i]]))
  }

  function Body(props: Properties): Bytes {
    Joined(Pairs(SortedKeys(props), props), COMMA)
  }

  /** What can be told apart again after printing. */
  predicate IsCleanKey(key: Bytes) {
    key != [] && COMMA !in key && EQUALS !in key && IsTrimmed(key)
  }

  predicate IsCleanValue(value: Bytes) {
    COMMA !in value && IsTrimmed(value)
  }

  predicate IsClean(props: Properties) {
    forall key | key in props :: IsCleanKey(key) && IsCleanValue(props[key])
  }

  /** What is still to be written from pair i on. */
  function WrittenFrom(pairs: seq<Bytes>, i: nat): Bytes
    requires i <= |pairs|
  {
    if i == |pairs| then []
    else if i == 0 then Joined(pairs, COMMA)
    else [COMMA] + Joined(pairs[i..], COMMA)
  }

  lemma NextWritten(pairs: seq<Bytes>, i: nat)
    requires i < |pairs|
    ensures WrittenFrom(pairs, i) == (if i > 0 then [COMMA] else []) + (pairs[i] + WrittenFrom(pairs, i + 1))
  {
    assert pairs[i..][1..] == pairs[i + 1..] && pairs[0..] == pairs;
    if i + 1 == |pairs| {
      assert pairs[i] + [] == pairs[i];
    }
    assert Joined(pairs[i..], COMMA) == pairs[i] + WrittenFrom(pairs, i + 1);
  }

  lemma PairAppended(form: Bytes, lead: Bytes, key: Bytes, value: Bytes, rest: Bytes)
    ensures form + (lead + (Pair(key, value) + rest)) == ((((form + lead) + key) + [EQUALS]) + value) + rest
    ensures lead == [] ==> form + lead == form
  {
  }

  method PropertyForm(props: Properties) returns (form: Bytes)
    ensures form == [OPEN] + Body(props) + [CLOSE]
  {
    var keys := SortedKeys(props);
    ghost var pairs := Pairs(keys, props);
    form := [OPEN];
    for i := 0 to |keys|
      invariant form + WrittenFrom(pairs, i) == [OPEN] + Body(props)
    {
      NextWritten(pairs, i);
      PairAppended(form, if i > 0 then [COMMA] else [], keys[i], props[keys[i]], WrittenFrom(pairs, i + 1));
      if i > 0 {
        form := form + [COMMA];
      }
      form := form + keys[i] + [EQUALS] + props[keys[i]];
    }
    assert form + [] == form;
    form := form + [CLOSE];
  }

  lemma {:induction false} TrimmedIsItself(s: Bytes)
    requires IsTrimmed(s)
    ensures Trimmed(s) == s
  {
  }

  lemma PairParts(key: Bytes, value: Bytes)
    requires IsCleanKey(key) && IsCleanValue(value)
    ensures var pair := Pair(key, value);
            && COMMA !in pair && Trimmed(pair) == pair && pair != []
            && IndexOf(pair, EQUALS) == |key| && pair[..|key|] == key && pair[|key| + 1..] == value
  {
    var pair := Pair(key, value);
    assert pair[|pair| - 1] == if value == [] then EQUALS else value[|value| - 1];
    TrimmedIsItself(pair);
    IndexOfAfter(key, EQUALS, value);
  }

  /** The properties under some of the keys. */
  function Among(props: Properties, keys: seq<Bytes>): Properties {
    map key | key in props && key in keys :: props[key]
  }

  lemma AmongOneMore(props: Properties, keys: seq<Bytes>, i: nat)
    requires i < |keys| && keys[i] in props
    ensures Among(props, keys[..i])[keys[i] := props[keys[i]]] == Among(props, keys[..i + 1])
  {
    assert keys[..i + 1] == keys[..i] + [keys[i]];
  }

  lemma OnePairParsed(key: Bytes, value: Bytes, pairs: seq<Bytes>, parsed: Properties)
    requires IsCleanKey(key) && IsCleanValue(value) && pairs != [] && pairs[0] == Pair(key, value)
    ensures Parsed(pairs, parsed) == Parsed(pairs[1..], parsed[key := value])
  {
    PairParts(key, value);
    TrimmedIsItself(key);
    TrimmedIsItself(value);
  }

  lemma PairParsed(keys: seq<Bytes>, props: Properties, i: nat, parsed: Properties)
    requires IsClean(props) && i < |keys|
    requires forall j | 0 <= j < |keys| :: keys[j] in props
    ensures Parsed(Pairs(keys, props)[i..], parsed)
         == Parsed(Pairs(keys, props)[i + 1..], parsed[keys[i] := props[keys[i]]])
  {
    var pairs := Pairs(keys, props);
    assert pairs[i..][0] == pairs[i] && pairs[i..][1..] == pairs[i + 1..];
    OnePairParsed(keys[i], props[keys[i]], pairs[i..], parsed);
  }

  lemma {:induction false} PairsParsed(keys: seq<Bytes>, props: Properties, i: nat)
    requires IsClean(props) && i <= |keys|
    requires forall j | 0 <= j < |keys| :: keys[j] in props
    ensures Parsed(Pairs(keys, props)[i..], Among(props, keys[..i])) == Some(Among(props, keys))
    decreases |keys| - i
  {
    if i < |keys| {
      PairParsed(keys, props, i, Among(props, keys[..i]));
      AmongOneMore(props, keys, i);
      PairsParsed(keys, props, i + 1);
    } else {
      assert keys[..i] == keys;
    }
  }

  lemma BodySplits(props: Properties)
    requires IsClean(props) && SortedKeys(props) != []
    ensures Split(Body(props), COMMA) == Pairs(SortedKeys(props), props)
  {
    var keys := SortedKeys(props);
    var pairs := Pairs(keys, props);
    forall i | 0 <= i < |pairs|
      ensures COMMA !in pairs[i]
    {
      PairParts(keys[i], props[keys[i]]);
    }
    SplitOfJoined(pairs, COMMA);
  }

  lemma NothingReadsBack()
    ensures ParsedPairs([]) == Some(map[])
  {
    assert Parsed([[]], map[]) == Parsed([], map[]);
  }

  lemma AmongAllKeys(props: Properties)
    ensures Among(props, SortedKeys(props)) == props
    ensures Among(props, []) == map[]
    ensures SortedKeys(props) == [] ==> props == map[]
  {
  }

  /** Properties that are clean are read back from their printed form. */
  lemma PropertiesReadBack(props: Properties)
    requires IsClean(props)
    ensures ParsedPairs(Body(props)) == Some(props)
  {
    var keys := SortedKeys(props);
    AmongAllKeys(props);
    if keys == [] {
      NothingReadsBack();
    } else {
      BodySplits(props);
      PairsParsed(keys, props, 0);
    }
  }

  // ------------------------------------------------------------- any other form

  predicate AreSpaces(s: Bytes) {
    forall i | 0 <= i < |s| :: IsSpace(s[i])
  }

  lemma {:induction false} OnlySpaces(s: Bytes)
    requires AreSpaces(s)
    ensures TrimmedLeft(s) == []
  {
    if s != [] {
      OnlySpaces(s[1..]);
    }
  }

  lemma {:induction false} TrimmedLeftIs(lead: Bytes, s: Bytes)
    requires AreSpaces(lead) && (s != [] ==> !IsSpace(s[0]))
    ensures TrimmedLeft(lead + s) == s
  {
    if lead == [] {
      assert lead + s == s;
    } else {
      assert (lead + s)[1..] == lead[1..] + s;
      TrimmedLeftIs(lead[1..], s);
    }
  }

  lemma {:induction false} TrimmedRightIs(s: Bytes, tail: Bytes)
    requires AreSpaces(tail) && (s != [] ==> !IsSpace(s[|s| - 1]))
    ensures TrimmedRight(s + tail) == s
    decreases |tail|
  {
    if tail == [] {
      assert s + tail == s;
    } else {
      var last := |tail| - 1;
      assert (s + tail)[..|s + tail| - 1] == s + tail[..last];
      TrimmedRightIs(s, tail[..last]);
    }
  }

  /** White space, which ASCII has six of, goes from both ends and from nowhere else. */
  lemma TrimmedIs(lead: Bytes, s: Bytes, tail: Bytes, b: Byte)
    requires AreSpaces(lead) && AreSpaces(tail) && IsTrimmed(s)
    ensures Trimmed(lead + (s + tail)) == s
    ensures IsSpace(b) <==> b == 32 || 9 <= b <= 13
  {
    if s == [] {
      assert lead + (s + tail) == lead + tail;
      OnlySpaces(lead + tail);
    } else {
      TrimmedLeftIs(lead, s + tail);
      TrimmedRightIs(s, tail);
    }
  }

  /** A form is malformed when one of its parts has no equals sign after its first byte. */
  lemma {:induction false} ParsedIff(parts: seq<Bytes>, props: Properties)
    ensures Parsed(parts, props).Some? <==>
      forall part :: part in parts ==>
        Trimmed(part) == [] || (Trimmed(part)[0] != '=' as int && '=' as int in Trimmed(part))
    decreases |parts|
  {
    if parts != [] {
      var token := Trimmed(parts[0]);
      assert parts == [parts[0]] + parts[1..];
      var i := IndexOf(token, EQUALS);
      if token == [] {
        ParsedIff(parts[1..], props);
      } else if i != 0 && i != |token| {
        ParsedIff(parts[1..], props[Trimmed(token[..i]) := Trimmed(token[i + 1..])]);
      }
    }
  }

  /** What is before the first equals sign of a part is the key of what is after it; the last value of a key stays. */
  lemma {:induction false} OneMoreParsed(parts: seq<Bytes>, part: Bytes, key: Bytes, value: Bytes, props: Properties)
    requires Trimmed(part) == key + (['=' as int] + value) && key != [] && '=' as int !in key
    ensures Parsed(parts + [part], props)
      == match Parsed(parts, props)
         case None => None
         case Some(before) => Some(before[Trimmed(key) := Trimmed(value)])
    decreases |parts|
  {
    if parts == [] {
      var token := Trimmed(part);
      assert (parts + [part])[1..] == [];
      IndexOfAfter(key, EQUALS, value);
      assert token[..|key|] == key && token[|key| + 1..] == value;
    } else {
      var token := Trimmed(parts[0]);
      assert (parts + [part])[1..] == parts[1..] + [part];
      var i := IndexOf(token, EQUALS);
      if token == [] {
        OneMoreParsed(parts[1..], part, key, value, props);
      } else if i != 0 && i != |token| {
        OneMoreParsed(parts[1..], part, key, value, props[Trimmed(token[..i]) := Trimmed(token[i + 1..])]);
      }
    }
  }

  lemma {:induction false} BlankPartSkipped(parts: seq<Bytes>, part: Bytes, props: Properties)
    requires Trimmed(part) == []
    ensures Parsed(parts + [part], props) == Parsed(parts, props)
    decreases |parts|
  {
    if parts == [] {
      assert (parts + [part])[1..] == [];
    } else {
      var token := Trimmed(parts[0]);
      assert (parts + [part])[1..] == parts[1..] + [part];
      var i := IndexOf(token, EQUALS);
      if token == [] {
        BlankPartSkipped(parts[1..], part, props);
      } else if i != 0 && i != |token| {
        BlankPartSkipped(parts[1..], part, props[Trimmed(token[..i]) := Trimmed(token[i + 1..])]);
      }
    }
  }

  /** A printed form has its pairs in the order of their keys. */
  lemma BodyIsInOrder(props: Properties, keys: seq<Bytes>)
    requires forall key :: key in keys <==> key in props
    requires forall i, j | 0 <= i < j < |keys| :: Less(keys[i], keys[j])
    ensures Body(props)
      == Joined(seq(|keys|, i requires 0 <= i < |keys| => keys[i] + (['=' as int] + props[keys[i]])), ',' as int)
  {
    AscendingIsUnique(keys, props.Keys, Itself);
    assert Pairs(keys, props) == seq(|keys|, i requires 0 <= i < |keys| => keys[i] + (['=' as int] + props[keys[i]]));
  }
}
