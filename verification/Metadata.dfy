/** The bounded metadata sanitiser of external references. */
module Metadata {
  import opened Wrappers

  const MAX_DEPTH := 5
  const MAX_ENTRIES := 100
  const MAX_ITEMS := 100
  const MAX_KEY_LENGTH := 120
  const MAX_STRING_LENGTH := 1000
  const MAX_LENGTH := 8192

  /** A value of the request body: JSON, numbers that are not finite, and anything else.  A
      record lists its entries in insertion order. */
  datatype Value =
    | Null
    | Bool(b: bool)
    | Text(s: string)
    | Number(finite: bool, n: real)
    | List(items: seq<Value>)
    | Record(entries: seq<Entry>)
    | Other

  datatype Entry = Entry(key: string, value: Value)

  predicate HasControl(s: string) { exists i :: 0 <= i < |s| && Control(s[i]) }

  predicate GoodKey(key: string) {
    && key != "" && |key| <= MAX_KEY_LENGTH && !HasControl(key)
    && key != "__proto__" && key != "prototype" && key != "constructor"
  }

  // ----- The rules, said once for the whole value -----

  /** Nesting of containers: 0 for a scalar, one more than its deepest element for a container. */
  function Depth(v: Value): nat
    decreases v, 1
  {
    match v
    case List(items) => 1 + DepthOfItems(items)
    case Record(entries) => 1 + DepthOfEntries(entries)
    case _ => 0
  }

  function DepthOfItems(items: seq<Value>): nat
    decreases items, 0
  {
    if |items| == 0 then 0
    else
      var d, rest := Depth(items[0]), DepthOfItems(items[1..]);
      if d > rest then d else rest
  }

  function DepthOfEntries(entries: seq<Entry>): nat
    decreases entries, 0
  {
    if |entries| == 0 then 0
    else
      var d, rest := Depth(entries[0].value), DepthOfEntries(entries[1..]);
      if d > rest then d else rest
  }

  /** Every node of the value meets its own limits. */
  predicate AllGood(v: Value) {
    match v
    case Null => true
    case Bool(_) => true
    case Text(s) => |s| <= MAX_STRING_LENGTH && !HasControl(s)
    case Number(finite, _) => finite
    case List(items) => |items| <= MAX_ITEMS && forall x :: x in items ==> AllGood(x)
    case Record(entries) =>
      |entries| <= MAX_ENTRIES && (forall x :: x in entries ==> GoodKey(x.key) && AllGood(x.value))
    case Other => false
  }

  /** Accepted at `depth`: good everywhere, and the containers fit under the limit. */
  predicate Accepted(v: Value, depth: nat) {
    AllGood(v) && (Depth(v) == 0 || depth + Depth(v) <= MAX_DEPTH)
  }

  lemma {:induction false} ItemsWithin(items: seq<Value>, k: nat)
    ensures DepthOfItems(items) <= k <==> forall x :: x in items ==> Depth(x) <= k
  {
    if |items| > 0 {
      ItemsWithin(items[1..], k);
      assert items == [items[0]] + items[1..];
      assert items[0] in items;
    }
  }

  lemma {:induction false} EntriesWithin(entries: seq<Entry>, k: nat)
    ensures DepthOfEntries(entries) <= k <==> forall x :: x in entries ==> Depth(x.value) <= k
  {
    if |entries| > 0 {
      EntriesWithin(entries[1..], k);
      assert entries == [entries[0]] + entries[1..];
      assert entries[0] in entries;
    }
  }

  /** A list is accepted exactly when it has room for itself and for its items. */
  lemma ListAccepted(items: seq<Value>, depth: nat)
    ensures Accepted(List(items), depth) <==>
      depth < MAX_DEPTH && |items| <= MAX_ITEMS && forall x :: x in items ==> Accepted(x, depth + 1)
  {
    if depth < MAX_DEPTH {
      ItemsWithin(items, MAX_DEPTH - depth - 1);
      assert forall x: Value :: depth + 1 + Depth(x) <= MAX_DEPTH <==> Depth(x) <= MAX_DEPTH - depth - 1;
    }
  }

  lemma RecordAccepted(entries: seq<Entry>, depth: nat)
    ensures Accepted(Record(entries), depth) <==>
      && depth < MAX_DEPTH && |entries| <= MAX_ENTRIES
      && forall x :: x in entries ==> GoodKey(x.key) && Accepted(x.value, depth + 1)
  {
    if depth < MAX_DEPTH {
      EntriesWithin(entries, MAX_DEPTH - depth - 1);
      assert forall x: Value :: depth + 1 + Depth(x) <= MAX_DEPTH <==> Depth(x) <= MAX_DEPTH - depth - 1;
    }
  }

  /** The limits of every kind of value, in figures. */
  lemma LimitsOfText(s: string)
    ensures AllGood(Text(s)) <==> |s| <= 1000 && forall c :: c in s ==> 32 <= c as int && c as int != 127
  {
    NoControl(s);
  }

  lemma LimitsOfKey(key: string)
    ensures GoodKey(key) <==>
      && 1 <= |key| <= 120 && key !in ["__proto__", "prototype", "constructor"]
      && forall c :: c in key ==> 32 <= c as int && c as int != 127
  {
    NoControl(key);
  }

  lemma NoControl(s: string)
    ensures !HasControl(s) <==> forall c :: c in s ==> 32 <= c as int && c as int != 127
  {
    forall c: char
      ensures Control(c) <==> c as int < 32 || c as int == 127
    {
    }
    if i :| 0 <= i < |s| && Control(s[i]) {
      assert s[i] in s;
    }
  }

  /** What is good, kind by kind: this leaves no choice for any value. */
  lemma GoodMeans(items: seq<Value>, entries: seq<Entry>, finite: bool, n: real, b: bool)
    ensures AllGood(Null) && AllGood(Bool(b)) && !AllGood(Other) && (AllGood(Number(finite, n)) <==> finite)
    ensures AllGood(List(items)) <==> |items| <= 100 && forall x :: x in items ==> AllGood(x)
    ensures AllGood(Record(entries)) <==> |entries| <= 100 && forall x :: x in entries ==>
      && 1 <= |x.key| <= 120 && x.key !in ["__proto__", "prototype", "constructor"]
      && (forall c :: c in x.key ==> 32 <= c as int && c as int != 127)
      && AllGood(x.value)
  {
    forall x | x in entries
      ensures GoodKey(x.key) <==>
        && 1 <= |x.key| <= 120 && x.key !in ["__proto__", "prototype", "constructor"]
        && forall c :: c in x.key ==> 32 <= c as int && c as int != 127
    {
      LimitsOfKey(x.key);
    }
  }

  /** How deep a value is: a container is one deeper than the deepest of what it holds. */
  lemma DepthMeans(v: Value, k: nat)
    ensures Depth(v) == 0 <==> !v.List? && !v.Record?
    ensures Depth(v) <= k + 1 <==>
      (v.List? ==> forall x :: x in v.items ==> Depth(x) <= k) && (v.Record? ==> forall x :: x in v.entries ==> Depth(x.value) <= k)
  {
    if v.List? {
      ItemsWithin(v.items, k);
    }
    if v.Record? {
      EntriesWithin(v.entries, k);
    }
  }

  // ----- The sanitiser -----

  method SanitizeRecord(value: Value, depth: nat) returns (r: Option<Value>)
    ensures r == if value.Record? && Accepted(value, depth) then Some(value) else None
    decreases value, 0
  {
    if !value.Record? || depth >= MAX_DEPTH {
      return None;
    }
    var entries := value.entries;
    RecordAccepted(entries, depth);
    if |entries| > MAX_ENTRIES {
      return None;
    }
    var sanitized: seq<Entry> := [];
    for n := 0 to |entries|
      invariant sanitized == entries[..n]
      invariant forall i :: 0 <= i < n ==> GoodKey(entries[i].key) && Accepted(entries[i].value, depth + 1)
    {
      assert entries[n] in entries;
      if !GoodKey(entries[n].key) {
        return None;
      }
      var parsed := SanitizeValue(entries[n].value, depth + 1);
      if parsed.None? {
        return None;
      }
      sanitized := sanitized + [Entry(entries[n].key, parsed.value)];
    }
    assert entries[..|entries|] == entries;
    return Some(Record(sanitized));
  }

  method SanitizeValue(value: Value, depth: nat) returns (r: Option<Value>)
    ensures r == if Accepted(value, depth) then Some(value) else None
    decreases value, 1
  {
    match value {
      case Null => return Some(value);
      case Bool(_) => return Some(value);
      case Text(s) =>
        if |s| > MAX_STRING_LENGTH || HasControl(s) {
          return None;
        }
        return Some(value);
      case Number(finite, _) =>
        if !finite {
          return None;
        }
        return Some(value);
      case List(items) =>
        ListAccepted(items, depth);
        if depth >= MAX_DEPTH || |items| > MAX_ITEMS {
          return None;
        }
        var sanitized: seq<Value> := [];
        for n := 0 to |items|
          invariant sanitized == items[..n]
          invariant forall i :: 0 <= i < n ==> Accepted(items[i], depth + 1)
        {
          assert items[n] in items;
          var parsed := SanitizeValue(items[n], depth + 1);
          if parsed.None? {
            return None;
          }
          sanitized := sanitized + [parsed.value];
        }
        assert items[..|items|] == items;
        return Some(List(sanitized));
      case _ =>
        r := SanitizeRecord(value, depth);
    }
  }

  datatype Parsed = Sanitized(value: Value) | MetadataInvalid | MetadataTooLarge

  /** A missing value is the empty record; of the others exactly the records nested at most five deep
      whose every node is within limits are valid, one whose printed form (its length is `printed`) is
      longer than 8192 is too large, and the rest are returned unchanged. */
  method ParseMetadata(value: Value, printed: Value -> nat) returns (r: Parsed)
    ensures value.Null? ==> r == Sanitized(Record([]))
    ensures !value.Null? ==>
      && (r.MetadataInvalid? <==> !(value.Record? && AllGood(value) && Depth(value) <= 5))
      && (r.MetadataTooLarge? <==> !r.MetadataInvalid? && printed(value) > 8192)
      && (r.Sanitized? ==> r.value == value)
  {
    if value.Null? {
      return Sanitized(Record([]));
    }
    var sanitized := SanitizeRecord(value, 0);
    if sanitized.None? {
      return MetadataInvalid;
    }
    if printed(sanitized.value) > MAX_LENGTH {
      return MetadataTooLarge;
    }
    return Sanitized(sanitized.value);
  }
}
