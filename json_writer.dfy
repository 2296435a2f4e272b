/** utilities/JsonDataWriter: a JSON file read into a Gson object tree, one
    string property added (at the root, or inside a per-scenario block), and
    the tree written back. A Gson JsonObject keeps its members in insertion
    order, and putting a key it already has replaces the value in place. */
module JsonDataWriter {
  import opened Common

  datatype Json =
    | JString(text: string)
    | JObject(members: seq<(string, Json)>)
    | JNull
    | JOther                 // numbers, booleans and arrays: never inspected

  type Members = seq<(string, Json)>

  /** The member names, in order. */
  function Keys(m: Members): (ks: seq<string>)
    ensures |ks| == |m| && forall i :: 0 <= i < |m| ==> ks[i] == m[i].0
  {
    seq(|m|, i requires 0 <= i < |m| => m[i].0)
  }

  /** `obj.get(k)`: the value of the first member named `k`. */
  function Get(m: Members, k: string): Option<Json>
    decreases |m|
  {
    if m == [] then None else if m[0].0 == k then Some(m[0].1) else Get(m[1..], k)
  }

  /** `obj.add(k, v)` / `addProperty(k, v)`: replace the value of an existing
      member where it stands, or append a new member at the end. */
  function Put(m: Members, k: string, v: Json): Members
    decreases |m|
  {
    if m == [] then [(k, v)]
    else if m[0].0 == k then [(k, v)] + m[1..]
    else [m[0]] + Put(m[1..], k, v)
  }

  lemma {:induction false} GetPut(m: Members, k: string, v: Json, k': string)
    ensures Get(Put(m, k, v), k') == if k' == k then Some(v) else Get(m, k')
    decreases |m|
  {
    if m != [] && m[0].0 != k {
      GetPut(m[1..], k, v, k');
      assert Put(m, k, v)[1..] == Put(m[1..], k, v);
    }
  }

  /** Putting keeps the order of the existing members and appends a new key. */
  lemma {:induction false} KeysPut(m: Members, k: string, v: Json)
    ensures Keys(Put(m, k, v)) == if k in Keys(m) then Keys(m) else Keys(m) + [k]
    decreases |m|
  {
    if m != [] {
      var rest := m[1..];
      assert m == [m[0]] + rest;
      KeysCons(m[0], rest);
      if m[0].0 != k {
        KeysPut(rest, k, v);
        assert Put(m, k, v) == [m[0]] + Put(rest, k, v);
        KeysCons(m[0], Put(rest, k, v));
        assert (k in Keys(m)) == (k in Keys(rest));
      } else {
        assert Put(m, k, v) == [(k, v)] + rest;
        KeysCons((k, v), rest);
      }
    }
  }

  lemma KeysCons(e: (string, Json), m: Members)
    ensures Keys([e] + m) == [e.0] + Keys(m)
  {
    var a, b := Keys([e] + m), [e.0] + Keys(m);
    forall i | 0 <= i < |a| ensures a[i] == b[i] {
      if i > 0 {
        assert ([e] + m)[i] == m[i - 1];
      }
    }
  }

  /** A second put of the same key supersedes the first; putting the same
      value twice is the same as putting it once. */
  lemma {:induction false} PutPut(m: Members, k: string, v: Json, w: Json)
    ensures Put(Put(m, k, v), k, w) == Put(m, k, w)
    decreases |m|
  {
    if m != [] && m[0].0 != k {
      PutPut(m[1..], k, v, w);
    }
  }

  /** What the file holds, as far as the writer can tell. */
  datatype Content =
    | EmptyFile              // length 0
    | BlankFile              // white space only: parses to JsonNull
    | Malformed              // Gson throws JsonSyntaxException
    | Document(json: Json)

  datatype FileState = Missing | Stored(content: Content)

  /** The root object of an existing file, or the exception getAsJsonObject
      (or the parser) throws. */
  function ParseRoot(c: Content): Result<Members>
  {
    match c
    case Malformed => Err(JsonSyntax)
    case Document(JObject(m)) => Ok(m)
    case _ => Err(IllegalState)
  }

  /** The file after writeSimpleData(key, value), or the exception. */
  function SimpleWrite(f: FileState, key: string, value: string): (r: Result<FileState>)
    ensures f.Missing? ==> r == Ok(Stored(Document(JObject([(key, JString(value))]))))
    ensures f.Stored? && f.content.EmptyFile? ==> r == Err(IllegalState)
  {
    var root := if f.Missing? then Ok([]) else ParseRoot(f.content);
    if root.Err? then Err(root.error)
    else Ok(Stored(Document(JObject(Put(root.value, key, JString(value))))))
  }

  /** The file after writeSimpleDataWithScenario(scenario, key, value), or the
      exception. A missing file is first created empty, so it reads as {}. */
  function ScenarioWrite(f: FileState, scenario: string, key: string, value: string): (r: Result<FileState>)
    ensures (f.Missing? || f == Stored(EmptyFile)) ==>
      r == Ok(Stored(Document(JObject([(scenario, JObject([(key, JString(value))]))]))))
  {
    var root := if f.Missing? || f.content.EmptyFile? then Ok([]) else ParseRoot(f.content);
    if root.Err? then Err(root.error)
    else
      var block := match Get(root.value, scenario)
        case None => Ok([])
        case Some(JObject(b)) => Ok(b)
        case Some(_) => Err(ClassCast);
      if block.Err? then Err(block.error)
      else Ok(Stored(Document(JObject(Put(root.value, scenario, JObject(Put(block.value, key, JString(value))))))))
  }

  /** The file after a scenario write whose exception, if any, is caught. */
  function AfterScenarioWrite(f: FileState, scenario: string, key: string, value: string): FileState
  {
    var r := ScenarioWrite(f, scenario, key, value);
    if r.Ok? then r.value else f
  }

  /** The root members of a file that holds an object. */
  function RootOf(f: FileState): Option<Members>
  {
    if f.Stored? && f.content.Document? && f.content.json.JObject? then Some(f.content.json.members) else None
  }

  /** The members of the scenario block of a file, when there is one. */
  function BlockOf(f: FileState, scenario: string): Option<Members>
  {
    var root := RootOf(f);
    if root.None? then None
    else match Get(root.value, scenario)
      case Some(JObject(b)) => Some(b)
      case _ => None
  }

  /** writeSimpleData sets `key` at the root to `value` and leaves every other
      root member as it was; it fails only when the file does not hold an object. */
  lemma SimpleWriteSets(f: FileState, key: string, value: string, other: string)
    requires other != key
    ensures SimpleWrite(f, key, value).Ok? <==> f.Missing? || RootOf(f).Some?
    ensures SimpleWrite(f, key, value).Ok? ==>
      var g := SimpleWrite(f, key, value).value;
      && RootOf(g).Some?
      && Get(RootOf(g).value, key) == Some(JString(value))
      && Get(RootOf(g).value, other) == if f.Missing? then None else Get(RootOf(f).value, other)
  {
    if SimpleWrite(f, key, value).Ok? && f.Stored? {
      GetPut(RootOf(f).value, key, JString(value), key);
      GetPut(RootOf(f).value, key, JString(value), other);
    }
  }

  /** writeSimpleDataWithScenario sets `key` to `value` inside the scenario
      block (creating the block if needed), keeps the block's other members,
      and changes no other root member. */
  lemma ScenarioWriteSets(f: FileState, scenario: string, key: string, value: string, otherKey: string, otherRoot: string)
    requires otherKey != key && otherRoot != scenario
    requires ScenarioWrite(f, scenario, key, value).Ok?
    ensures var g := ScenarioWrite(f, scenario, key, value).value;
      && BlockOf(g, scenario).Some?
      && Get(BlockOf(g, scenario).value, key) == Some(JString(value))
      && Get(BlockOf(g, scenario).value, otherKey) == (if BlockOf(f, scenario).Some? then Get(BlockOf(f, scenario).value, otherKey) else None)
      && Get(RootOf(g).value, otherRoot) == (if RootOf(f).Some? then Get(RootOf(f).value, otherRoot) else None)
  {
    var root: Members := if f.Missing? || f.content.EmptyFile? then [] else RootOf(f).value;
    var block: Members := if BlockOf(f, scenario).Some? then BlockOf(f, scenario).value else [];
    GetPut(root, scenario, JObject(Put(block, key, JString(value))), scenario);
    GetPut(root, scenario, JObject(Put(block, key, JString(value))), otherRoot);
    GetPut(block, key, JString(value), key);
    GetPut(block, key, JString(value), otherKey);
  }

  /** Two scenario writes of the same key: the second value is what remains,
      exactly as if the first write had not happened. Repeating a write
      changes nothing. */
  lemma ScenarioWriteLastWins(f: FileState, scenario: string, key: string, v: string, w: string)
    requires ScenarioWrite(f, scenario, key, v).Ok?
    ensures ScenarioWrite(ScenarioWrite(f, scenario, key, v).value, scenario, key, w) == ScenarioWrite(f, scenario, key, w)
    ensures ScenarioWrite(ScenarioWrite(f, scenario, key, v).value, scenario, key, v) == ScenarioWrite(f, scenario, key, v)
  {
    var root: Members := if f.Missing? || f.content.EmptyFile? then [] else RootOf(f).value;
    var block: Members := if BlockOf(f, scenario).Some? then BlockOf(f, scenario).value else [];
    var b1 := Put(block, key, JString(v));
    GetPut(root, scenario, JObject(b1), scenario);
    PutPut(block, key, JString(v), JString(w));
    PutPut(block, key, JString(v), JString(v));
    PutPut(root, scenario, JObject(b1), JObject(Put(b1, key, JString(w))));
    PutPut(root, scenario, JObject(b1), JObject(Put(b1, key, JString(v))));
  }

  /** The same for writeSimpleData. */
  lemma SimpleWriteLastWins(f: FileState, key: string, v: string, w: string)
    requires SimpleWrite(f, key, v).Ok?
    ensures SimpleWrite(SimpleWrite(f, key, v).value, key, w) == SimpleWrite(f, key, w)
    ensures SimpleWrite(SimpleWrite(f, key, v).value, key, v) == SimpleWrite(f, key, v)
  {
    var root: Members := if f.Missing? then [] else RootOf(f).value;
    PutPut(root, key, JString(v), JString(w));
    PutPut(root, key, JString(v), JString(v));
  }

  /** Writing a new key into a scenario block appends it after the keys the
      block already has, so the block lists its keys in first-write order. */
  lemma ScenarioWriteOrder(f: FileState, scenario: string, key: string, value: string)
    requires ScenarioWrite(f, scenario, key, value).Ok?
    ensures var before := if BlockOf(f, scenario).Some? then Keys(BlockOf(f, scenario).value) else [];
      var g := ScenarioWrite(f, scenario, key, value).value;
      BlockOf(g, scenario).Some? && Keys(BlockOf(g, scenario).value) == if key in before then before else before + [key]
  {
    var root: Members := if f.Missing? || f.content.EmptyFile? then [] else RootOf(f).value;
    var block: Members := if BlockOf(f, scenario).Some? then BlockOf(f, scenario).value else [];
    GetPut(root, scenario, JObject(Put(block, key, JString(value))), scenario);
    KeysPut(block, key, JString(value));
  }

  /** One JSON file under src/test/resources/data/. */
  class JsonFile {
    var state: FileState

    constructor (state: FileState)
      ensures this.state == state
    {
      this.state := state;
    }

    /** `writeSimpleData(key, value, file)`: on an exception the file is
        left as it was. */
    method WriteSimpleData(key: string, value: string) returns (outcome: Outcome)
      modifies this
      ensures SimpleWrite(old(state), key, value).Ok? ==> outcome == Pass && state == SimpleWrite(old(state), key, value).value
      ensures SimpleWrite(old(state), key, value).Err? ==> outcome == Fail(SimpleWrite(old(state), key, value).error) && state == old(state)
    {
      var root: Members;
      if state.Missing? {
        root := [];
      } else {
        var parsed := ParseRoot(state.content);
        if parsed.Err? {
          return Fail(parsed.error);
        }
        root := parsed.value;
      }
      root := Put(root, key, JString(value));
      state := Stored(Document(JObject(root)));
      outcome := Pass;
    }

    /** `writeSimpleDataWithScenario(scenario, key, value, file)`. A missing
        file is created (empty) before anything can fail. */
    method WriteSimpleDataWithScenario(scenario: string, key: string, value: string) returns (outcome: Outcome)
      modifies this
      ensures state == AfterScenarioWrite(old(state), scenario, key, value)
      ensures outcome == if ScenarioWrite(old(state), scenario, key, value).Ok? then Pass
                         else Fail(ScenarioWrite(old(state), scenario, key, value).error)
    {
      if state.Missing? {
        state := Stored(EmptyFile);
      }
      var root: Members;
      if state.content.EmptyFile? {
        root := [];
      } else {
        var parsed := ParseRoot(state.content);
        if parsed.Err? {
          return Fail(parsed.error);
        }
        root := parsed.value;
      }
      var block: Members;
      match Get(root, scenario) {
        case None => block := [];
        case Some(JObject(b)) => block := b;
        case Some(_) => return Fail(ClassCast);
      }
      block := Put(block, key, JString(value));
      root := Put(root, scenario, JObject(block));
      state := Stored(Document(JObject(root)));
      outcome := Pass;
    }
  }
}
