/** The U-Boot environment block: parser, printer, checker and the editing commands. */
module UbootEnv {
  import opened Bytes

  const BLOCK_SIZE := 4096
  const DATA_SIZE := 4092
  const EQUALS := 61

  datatype Entry = Entry(key: bytes, value: bytes)

  /** A dictionary in insertion order. */
  type Env = seq<Entry>

  predicate HasKey(e: Env, k: bytes) {
    e != [] && (e[0].key == k || HasKey(e[1..], k))
  }

  /** No key occurs twice. */
  predicate IsDict(e: Env) {
    e == [] || (!HasKey(e[1..], e[0].key) && IsDict(e[1..]))
  }

  /** e[k] = v */
  function Assign(e: Env, k: bytes, v: bytes): Env {
    if e == [] then [Entry(k, v)]
    else if e[0].key == k then [Entry(k, v)] + e[1..]
    else [e[0]] + Assign(e[1..], k, v)
  }

  /** e.pop(k, None) */
  function Remove(e: Env, k: bytes): Env {
    if e == [] then [] else if e[0].key == k then e[1..] else [e[0]] + Remove(e[1..], k)
  }

  predicate AllAscii(e: Env) {
    forall i :: 0 <= i < |e| ==> Ascii(e[i].key) && Ascii(e[i].value)
  }

  /** No NUL anywhere and no '=' in keys. */
  predicate Clean(e: Env) {
    forall i :: 0 <= i < |e| ==> CleanEntry(e[i])
  }

  predicate CleanEntry(x: Entry) {
    0 !in x.key && EQUALS !in x.key && 0 !in x.value
  }

  // ------------------------------------------------------------- splitting

  /** s.split(b'\0') */
  function Split(s: bytes): (r: seq<bytes>)
    ensures |r| > 0
    decreases |s|
  {
    var i := Find(s, 0);
    if i.None? then [s] else [s[..i.value]] + Split(s[i.value + 1..])
  }

  function Join(parts: seq<bytes>): bytes {
    if parts == [] then [] else if |parts| == 1 then parts[0] else parts[0] + [0] + Join(parts[1..])
  }

  /** What one entry does to the dictionary; entries without '=' are skipped. */
  function Enter(e: Env, text: bytes): Env {
    var i := Find(text, EQUALS);
    if i.None? then e else Assign(e, text[..i.value], text[i.value + 1..])
  }

  /** Entries are taken up to the first empty one. */
  function Gather(e: Env, texts: seq<bytes>): Env
    decreases |texts|
  {
    if texts == [] || texts[0] == [] then e else Gather(Enter(e, texts[0]), texts[1..])
  }

  // ------------------------------------------------------------- blocks

  /** A checksum function with 32-bit results. */
  ghost predicate Checksum(crc: bytes -> nat) {
    forall s :: crc(s) < 0x1_0000_0000
  }

  function Parse(block: bytes): Result<Env> {
    if |block| != BLOCK_SIZE then Err(ValueError) else Ok(Gather([], Split(block[4..])))
  }

  function Text(x: Entry): bytes {
    x.key + [EQUALS] + x.value
  }

  function Texts(e: Env): (r: seq<bytes>)
    ensures |r| == |e| && forall i :: 0 <= i < |e| ==> r[i] == Text(e[i])
  {
    seq(|e|, i requires 0 <= i < |e| => Text(e[i]))
  }

  function Payload(e: Env): bytes {
    Join(Texts(e)) + [0, 0]
  }

  function Serialize(crc: bytes -> nat, e: Env): (r: Result<bytes>)
    ensures r.Ok? ==> |r.value| == BLOCK_SIZE
  {
    if !AllAscii(e) then Err(UnicodeError)
    else if |Payload(e)| > DATA_SIZE then Err(ValueError)
    else
      var payload := Resize(Payload(e), DATA_SIZE);
      Ok(LE(crc(payload), 4) + payload)
  }

  /** Every entry up to the first empty one is ASCII and has an '='. */
  predicate WellFormed(texts: seq<bytes>)
    decreases |texts|
  {
    texts == [] || texts[0] == [] || (Ascii(texts[0]) && EQUALS in texts[0] && WellFormed(texts[1..]))
  }

  predicate Verified(crc: bytes -> nat, block: bytes) {
    |block| == BLOCK_SIZE && FromLE(block[..4]) == crc(block[4..]) && WellFormed(Split(block[4..]))
  }

  // ------------------------------------------------------------- dictionaries

  lemma {:induction false} HasKeyAt(e: Env, k: bytes)
    ensures HasKey(e, k) <==> exists i :: 0 <= i < |e| && e[i].key == k
  {
    if e != [] {
      HasKeyAt(e[1..], k);
      assert forall i :: 0 <= i < |e| - 1 ==> e[1..][i] == e[i + 1];
      assert forall i :: 0 < i < |e| ==> e[i] == e[1..][i - 1];
    }
  }

  /** In a dictionary any two entries have different keys. */
  lemma {:induction false} IsDictIff(e: Env)
    ensures IsDict(e) <==> forall i, j :: 0 <= i < j < |e| ==> e[i].key != e[j].key
  {
    if e != [] {
      IsDictIff(e[1..]);
      HasKeyAt(e[1..], e[0].key);
      assert forall i :: 0 <= i < |e| - 1 ==> e[1..][i] == e[i + 1];
      assert forall i :: 0 < i < |e| ==> e[i] == e[1..][i - 1];
    }
  }

  lemma {:induction false} AssignHasKey(e: Env, k: bytes, v: bytes, x: bytes)
    ensures HasKey(Assign(e, k, v), x) <==> HasKey(e, x) || x == k
  {
    if e != [] && e[0].key != k {
      AssignHasKey(e[1..], k, v, x);
    }
  }

  lemma {:induction false} AssignIsDict(e: Env, k: bytes, v: bytes)
    requires IsDict(e)
    ensures IsDict(Assign(e, k, v))
  {
    if e != [] && e[0].key != k {
      AssignIsDict(e[1..], k, v);
      AssignHasKey(e[1..], k, v, e[0].key);
    }
  }

  lemma {:induction false} AssignFresh(e: Env, k: bytes, v: bytes)
    requires !HasKey(e, k)
    ensures Assign(e, k, v) == e + [Entry(k, v)]
  {
    if e != [] {
      AssignFresh(e[1..], k, v);
      assert e + [Entry(k, v)] == [e[0]] + (e[1..] + [Entry(k, v)]);
    }
  }

  lemma {:induction false} RemoveFresh(e: Env, k: bytes, tail: Env)
    requires !HasKey(e, k)
    ensures Remove(e + tail, k) == e + Remove(tail, k)
  {
    if e == [] {
      assert e + tail == tail;
    } else {
      var all, t := e + tail, e[1..];
      assert all[0] == e[0] && all[1..] == t + tail;
      RemoveFresh(t, k, tail);
      Assoc([e[0]], t, Remove(tail, k));
      assert [e[0]] + t == e;
    }
  }

  // ------------------------------------------------------------- printing, then parsing

  lemma {:induction false} FindBehind(a: bytes, b: byte, t: bytes)
    requires b !in a
    ensures Find(a + [b] + t, b) == Some(|a|)
  {
    var s := a + [b] + t;
    if a == [] {
      assert s[0] == b;
    } else {
      assert s[1..] == a[1..] + [b] + t;
      FindBehind(a[1..], b, t);
    }
  }

  lemma SplitStep(a: bytes, rest: bytes)
    requires 0 !in a
    ensures Split(a + [0] + rest) == [a] + Split(rest)
  {
    FindBehind(a, 0, rest);
    var s := a + [0] + rest;
    assert s[..|a|] == a && s[|a| + 1..] == rest;
  }

  lemma {:induction false} SplitJoined(parts: seq<bytes>, tail: bytes)
    requires parts != [] && forall i :: 0 <= i < |parts| ==> 0 !in parts[i]
    ensures Split(Join(parts) + [0] + tail) == parts + Split(tail)
  {
    hide Split;
    if |parts| == 1 {
      SplitStep(parts[0], tail);
      assert parts == [parts[0]];
    } else {
      var rest := Join(parts[1..]) + [0] + tail;
      assert Join(parts) + [0] + tail == parts[0] + [0] + rest;
      SplitStep(parts[0], rest);
      SplitJoined(parts[1..], tail);
      assert parts == [parts[0]] + parts[1..];
      Assoc([parts[0]], parts[1..], Split(tail));
    }
  }

  lemma EnterText(e: Env, x: Entry)
    requires EQUALS !in x.key
    ensures Enter(e, Text(x)) == Assign(e, x.key, x.value) && Text(x) != []
  {
    FindBehind(x.key, EQUALS, x.value);
    assert Text(x)[..|x.key|] == x.key && Text(x)[|x.key| + 1..] == x.value;
  }

  /** Gathering the printed entries of a dictionary appends them one by one. */
  lemma {:induction false} GatherTexts(done: Env, e: Env, rest: seq<bytes>)
    requires IsDict(done + e) && Clean(e)
    ensures Gather(done, Texts(e) + ([[]] + rest)) == done + e
    decreases |e|
  {
    hide CleanEntry, Enter, Text;
    var ts := Texts(e) + ([[]] + rest);
    if e == [] {
      assert ts == [[]] + rest && done + e == done;
    } else {
      assert CleanEntry(e[0]);
      EnterText(done, e[0]) by { assert EQUALS !in e[0].key by { CleanKey(e[0]); } }
      FreshNext(done, e);
      AssignFresh(done, e[0].key, e[0].value);
      assert done + e == (done + [e[0]]) + e[1..];
      GatherTexts(done + [e[0]], e[1..], rest);
      assert ts[1..] == Texts(e[1..]) + ([[]] + rest);
    }
  }

  lemma CleanKey(x: Entry)
    requires CleanEntry(x)
    ensures EQUALS !in x.key
  {
  }

  lemma {:induction false} HasKeyConcat(d: Env, e: Env, k: bytes)
    ensures HasKey(d + e, k) <==> HasKey(d, k) || HasKey(e, k)
  {
    if d == [] {
      assert d + e == e;
    } else {
      assert (d + e)[1..] == d[1..] + e;
      HasKeyConcat(d[1..], e, k);
    }
  }

  lemma {:induction false} FreshNext(done: Env, e: Env)
    requires e != [] && IsDict(done + e)
    ensures !HasKey(done, e[0].key)
  {
    if done != [] {
      assert (done + e)[1..] == done[1..] + e;
      FreshNext(done[1..], e);
      HasKeyConcat(done[1..], e, done[0].key);
    }
  }

  lemma PayloadSplits(e: Env) returns (rest: seq<bytes>)
    requires Clean(e) && |Payload(e)| <= DATA_SIZE
    ensures Split(Resize(Payload(e), DATA_SIZE)) == Texts(e) + ([[]] + rest)
  {
    var z := Zeros(DATA_SIZE - |Payload(e)|);
    var j := Join(Texts(e));
    rest := Split(z);
    var p := Resize(Payload(e), DATA_SIZE);
    assert p == j + [0] + ([0] + z);
    SplitStep([], z);
    assert [] + [0] + z == [0] + z;
    if e == [] {
      SplitStep([], [0] + z);
      assert [] + [0] + ([0] + z) == p;
      rest := [[]] + rest;
    } else {
      TextsClean(e);
      SplitJoined(Texts(e), [0] + z);
    }
  }

  lemma TextsClean(e: Env)
    requires Clean(e)
    ensures forall i :: 0 <= i < |e| ==> 0 !in Texts(e)[i]
  {
    forall i | 0 <= i < |e| ensures 0 !in Texts(e)[i] {
      assert CleanEntry(e[i]);
    }
  }

  /** Reading back a clean dictionary that could be written gives it back, in order. */
  lemma RoundTrip(crc: bytes -> nat, e: Env)
    requires IsDict(e) && Clean(e) && Serialize(crc, e).Ok?
    ensures Parse(Serialize(crc, e).value) == Ok(e)
  {
    hide Texts, Payload, Clean, Split, Gather, IsDict;
    var rest := PayloadSplits(e);
    assert [] + e == e;
    GatherTexts([], e, rest);
    var b := Serialize(crc, e).value;
    assert b[4..] == Resize(Payload(e), DATA_SIZE);
  }

  // ------------------------------------------------------------- what parsing gives

  lemma {:induction false} SplitIsNulFree(s: bytes)
    ensures forall i :: 0 <= i < |Split(s)| ==> 0 !in Split(s)[i]
    decreases |s|
  {
    var i := Find(s, 0);
    if i.Some? {
      SplitIsNulFree(s[i.value + 1..]);
    }
  }

  lemma EnterClean(e: Env, text: bytes)
    requires Clean(e) && IsDict(e) && 0 !in text
    ensures Clean(Enter(e, text)) && IsDict(Enter(e, text))
  {
    var i := Find(text, EQUALS);
    if i.Some? {
      var k, v := text[..i.value], text[i.value + 1..];
      AssignIsDict(e, k, v);
      AssignClean(e, k, v);
    }
  }

  lemma {:induction false} AssignClean(e: Env, k: bytes, v: bytes)
    requires Clean(e) && CleanEntry(Entry(k, v))
    ensures Clean(Assign(e, k, v))
  {
    hide CleanEntry;
    if e != [] && e[0].key != k {
      assert forall i :: 0 <= i < |e[1..]| ==> e[1..][i] == e[i + 1];
      AssignClean(e[1..], k, v);
    }
  }

  lemma {:induction false} GatherClean(e: Env, texts: seq<bytes>)
    requires Clean(e) && IsDict(e) && forall i :: 0 <= i < |texts| ==> 0 !in texts[i]
    ensures Clean(Gather(e, texts)) && IsDict(Gather(e, texts))
    decreases |texts|
  {
    hide Clean, IsDict, Enter;
    if texts != [] && texts[0] != [] {
      EnterClean(e, texts[0]);
      GatherClean(Enter(e, texts[0]), texts[1..]);
    }
  }

  /** Whatever is parsed is a dictionary without NULs and without '=' in keys. */
  lemma ParsedIsClean(block: bytes)
    requires Parse(block).Ok?
    ensures Clean(Parse(block).value) && IsDict(Parse(block).value)
  {
    SplitIsNulFree(block[4..]);
    GatherClean([], Split(block[4..]));
  }

  /** A dictionary that can be written is read back unchanged exactly when it is clean. */
  lemma RoundTripIff(crc: bytes -> nat, e: Env)
    requires IsDict(e) && Serialize(crc, e).Ok?
    ensures Parse(Serialize(crc, e).value) == Ok(e) <==> Clean(e)
  {
    hide Serialize, Parse;
    if Clean(e) {
      RoundTrip(crc, e);
    }
    if Parse(Serialize(crc, e).value) == Ok(e) {
      ParsedIsClean(Serialize(crc, e).value);
    }
  }

  /** What is written from a clean dictionary passes the checker. */
  lemma SerializedVerifies(crc: bytes -> nat, e: Env)
    requires Checksum(crc) && Clean(e) && Serialize(crc, e).Ok?
    ensures Verified(crc, Serialize(crc, e).value)
  {
    hide Texts, Payload, Clean, Split, WellFormed;
    var b, p := Serialize(crc, e).value, Resize(Payload(e), DATA_SIZE);
    var rest := PayloadSplits(e);
    PrintedWellFormed(e, rest);
    Pow256Values();
    LERoundTrip(crc(p), 4);
    assert b[..4] == LE(crc(p), 4) && b[4..] == p;
  }

  lemma {:induction false} PrintedWellFormed(e: Env, rest: seq<bytes>)
    requires AllAscii(e)
    ensures WellFormed(Texts(e) + ([[]] + rest))
    decreases |e|
  {
    var ts := Texts(e) + ([[]] + rest);
    if e == [] {
      assert ts == [[]] + rest;
    } else {
      assert ts[0] == Text(e[0]) && EQUALS in Text(e[0]);
      assert ts[1..] == Texts(e[1..]) + ([[]] + rest);
      PrintedWellFormed(e[1..], rest);
    }
  }

  // ------------------------------------------------------------- normalisation

  /** Space an entry takes with its '=' and its NUL. */
  function Cost(e: Env): nat {
    if e == [] then 0 else |e[0].key| + |e[0].value| + 2 + Cost(e[1..])
  }

  /** Space the entries up to the first empty one take with their NULs. */
  function Weight(texts: seq<bytes>): nat
    decreases |texts|
  {
    if texts == [] || texts[0] == [] then 0 else |texts[0]| + 1 + Weight(texts[1..])
  }

  lemma {:induction false} PayloadSize(e: Env)
    ensures |Payload(e)| == if e == [] then 2 else Cost(e) + 1
  {
    if |e| == 1 {
      assert Texts(e) == [Text(e[0])] && Cost(e[1..]) == 0;
    } else if |e| > 1 {
      PayloadSize(e[1..]);
      assert Texts(e)[1..] == Texts(e[1..]);
    }
  }

  /** A new key takes its place; under an old one at least '=' and NUL of what was there are saved. */
  lemma {:induction false} AssignCost(e: Env, k: bytes, v: bytes)
    ensures if HasKey(e, k) then Cost(Assign(e, k, v)) <= Cost(e) + |k| + |v|
            else Cost(Assign(e, k, v)) == Cost(e) + |k| + |v| + 2
  {
    if e == [] {
      assert [Entry(k, v)][1..] == [];
    } else if e[0].key == k {
      assert Assign(e, k, v)[1..] == e[1..];
    } else {
      AssignCost(e[1..], k, v);
      assert Assign(e, k, v)[1..] == Assign(e[1..], k, v);
    }
  }

  /** An entry without '=', or one whose key is there already. */
  predicate Wasted(e: Env, text: bytes) {
    var i := Find(text, EQUALS);
    i.None? || HasKey(e, text[..i.value])
  }

  /** Some entry in front of the first empty one is malformed or repeats a key. */
  predicate SomeWasted(e: Env, texts: seq<bytes>)
    decreases |texts|
  {
    texts != [] && texts[0] != [] && (Wasted(e, texts[0]) || SomeWasted(Enter(e, texts[0]), texts[1..]))
  }

  /** Dropping malformed entries and merging duplicates never takes more space. */
  lemma {:induction false} GatherCost(e: Env, texts: seq<bytes>)
    ensures if SomeWasted(e, texts) then Cost(Gather(e, texts)) + 2 <= Cost(e) + Weight(texts)
            else Cost(Gather(e, texts)) == Cost(e) + Weight(texts)
    decreases |texts|
  {
    if texts != [] && texts[0] != [] {
      hide Enter, Cost, Wasted;
      EnterCost(e, texts[0]);
      GatherCost(Enter(e, texts[0]), texts[1..]);
    }
  }

  lemma EnterCost(e: Env, text: bytes)
    requires text != []
    ensures if Wasted(e, text) then Cost(Enter(e, text)) + 2 <= Cost(e) + |text| + 1
            else Cost(Enter(e, text)) == Cost(e) + |text| + 1
  {
    var i := Find(text, EQUALS);
    if i.Some? {
      AssignCost(e, text[..i.value], text[i.value + 1..]);
    }
  }

  /** The data starts with NUL or has two NULs in a row: the end mark of a block. */
  predicate Terminated(s: bytes) {
    (s != [] && s[0] == 0) || exists j :: 0 <= j < |s| - 1 && s[j] == 0 && s[j + 1] == 0
  }

  /** The end mark lies behind the first NUL, unless that one is in front. */
  lemma TerminatedBehind(s: bytes, i: nat)
    requires Find(s, 0) == Some(i) && i > 0
    ensures Terminated(s) <==> Terminated(s[i + 1..])
  {
    var t := s[i + 1..];
    assert forall k :: 0 <= k < i ==> s[k] == s[..i][k];
    assert forall k :: 0 <= k < |t| ==> t[k] == s[k + i + 1];
    if exists j :: 0 <= j < |s| - 1 && s[j] == 0 && s[j + 1] == 0 {
      var j :| 0 <= j < |s| - 1 && s[j] == 0 && s[j + 1] == 0;
      assert j > i ==> t[j - i - 1] == 0 && t[j - i - 1 + 1] == 0;
    }
    if Terminated(t) {
      var j := if t[0] == 0 then -1 else var j :| 0 <= j < |t| - 1 && t[j] == 0 && t[j + 1] == 0; j;
      assert s[j + i + 1] == 0 && s[j + i + 1 + 1] == 0;
    }
  }

  lemma NotTerminated(s: bytes)
    requires 0 !in s
    ensures !Terminated(s)
  {
  }

  /** Only the end mark leaves space: without one the entries fill the data to the last byte. */
  lemma {:induction false} TerminatedWeight(s: bytes)
    ensures if Terminated(s) then Weight(Split(s)) + 1 <= |s| else |s| <= Weight(Split(s)) <= |s| + 1
    decreases |s|
  {
    hide Terminated;
    var i := Find(s, 0);
    if i.None? {
      NotTerminated(s);
      assert Weight([s][1..]) == 0;
    } else if i.value == 0 {
      assert Terminated(s) by { StartsTerminated(s); }
    } else {
      TerminatedBehind(s, i.value);
      TerminatedWeight(s[i.value + 1..]);
      assert Split(s)[1..] == Split(s[i.value + 1..]);
    }
  }

  lemma StartsTerminated(s: bytes)
    requires s != [] && s[0] == 0
    ensures Terminated(s)
  {
  }

  /**
    The blocks that can be written back after parsing: what was kept is ASCII, and either the block has an end mark or
    something was not kept. Doing so again changes nothing.
   */
  lemma WritableIff(crc: bytes -> nat, block: bytes)
    requires Checksum(crc) && |block| == BLOCK_SIZE
    ensures var e := Parse(block).value;
            && (Serialize(crc, e).Ok?
                <==> AllAscii(e) && (Terminated(block[4..]) || SomeWasted([], Split(block[4..]))))
            && (Serialize(crc, e).Ok? ==>
                  Parse(Serialize(crc, e).value) == Ok(e) && Verified(crc, Serialize(crc, e).value))
  {
    hide Payload, Clean, Split, SomeWasted, Terminated, Gather, AllAscii, Verified, Cost, Weight;
    var e, texts := Parse(block).value, Split(block[4..]);
    assert e == Gather([], texts) by { ParseIs(block); }
    CostOfNone();
    TerminatedWeight(block[4..]);
    GatherCost([], texts);
    PayloadSize(e);
    ParsedIsClean(block);
    if Serialize(crc, e).Ok? {
      RoundTrip(crc, e);
      SerializedVerifies(crc, e);
    }
  }

  lemma ParseIs(block: bytes)
    requires |block| == BLOCK_SIZE
    ensures Parse(block) == Ok(Gather([], Split(block[4..])))
  {
  }

  lemma CostOfNone()
    ensures Cost([]) == 0
  {
  }

  /** So an entry that fills the block to the last byte is read but cannot be written. */
  lemma FullBlockCannotBeWritten(crc: bytes -> nat, block: bytes)
    requires Checksum(crc) && |block| == BLOCK_SIZE && 0 !in block[4..] && EQUALS in block[4..]
    ensures Parse(block).Ok? && Serialize(crc, Parse(block).value).Err?
  {
    var s := block[4..];
    assert Split(s) == [s] && !SomeWasted(Enter([], s), [s][1..]);
    WritableIff(crc, block);
  }

  // ------------------------------------------------------------- commands

  /** Arguments 'key=value' of the modify command; one without '=' ends it. */
  function Modified(e: Env, kvs: seq<bytes>): Result<Env>
    decreases |kvs|
  {
    if kvs == [] then Ok(e)
    else if EQUALS !in kvs[0] then Err(ValueError)
    else Modified(Enter(e, kvs[0]), kvs[1..])
  }

  function Removed(e: Env, keys: seq<bytes>): Env
    decreases |keys|
  {
    if keys == [] then e else Removed(Remove(e, keys[0]), keys[1..])
  }

  /** The values the preset command writes; they are constants of the program. */
  datatype Presets = Presets(slotaboot: bytes, slotbboot: bytes, bootcmdAb: bytes)

  /** 'slotaboot', 'slotbboot', 'bootcmd_ab', 'slot' and 'b' */
  const SLOTABOOT: bytes := [115, 108, 111, 116, 97, 98, 111, 111, 116]
  const SLOTBBOOT: bytes := [115, 108, 111, 116, 98, 98, 111, 111, 116]
  const BOOTCMD_AB: bytes := [98, 111, 111, 116, 99, 109, 100, 95, 97, 98]
  const SLOT: bytes := [115, 108, 111, 116]
  const B: bytes := [98]

  function SetDefault(e: Env, k: bytes, v: bytes): Env {
    if HasKey(e, k) then e else Assign(e, k, v)
  }

  function Preset(e: Env, p: Presets): Env {
    var e1 := Assign(e, SLOTABOOT, p.slotaboot);
    var e2 := Assign(e1, SLOTBBOOT, p.slotbboot);
    SetDefault(Assign(e2, BOOTCMD_AB, p.bootcmdAb), SLOT, B)
  }

  /** parse_env */
  method ParseEnv(block: bytes) returns (r: Result<Env>)
    ensures r == Parse(block)
  {
    if |block| != BLOCK_SIZE {
      return Err(ValueError);
    }
    var texts := Split(block[4..]);
    var out: Env := [];
    var i := 0;
    while i < |texts|
      invariant 0 <= i <= |texts| && Gather(out, texts[i..]) == Gather([], texts)
    {
      var entry := texts[i];
      assert texts[i..][0] == entry && texts[i..][1..] == texts[i + 1..];
      if entry == [] {
        break;
      }
      var eq := Find(entry, EQUALS);
      if eq.Some? {
        out := Assign(out, entry[..eq.value], entry[eq.value + 1..]);
      }
      i := i + 1;
    }
    return Ok(out);
  }

  /** verify_block */
  method VerifyBlock(crc: bytes -> nat, block: bytes) returns (ok: bool)
    ensures ok <==> Verified(crc, block)
  {
    if |block| != BLOCK_SIZE || FromLE(block[..4]) != crc(block[4..]) {
      return false;
    }
    var texts := Split(block[4..]);
    var i := 0;
    while i < |texts|
      invariant 0 <= i <= |texts| && (WellFormed(texts[i..]) <==> WellFormed(texts))
    {
      var entry := texts[i];
      assert texts[i..][0] == entry && texts[i..][1..] == texts[i + 1..];
      if entry == [] {
        break;
      }
      if !Ascii(entry) || EQUALS !in entry {
        return false;
      }
      i := i + 1;
    }
    return true;
  }

  lemma ModifiedStep(e: Env, kvs: seq<bytes>, i: nat)
    requires i < |kvs|
    ensures var eq := Find(kvs[i], EQUALS);
            Modified(e, kvs[i..])
            == if eq.None? then Err(ValueError)
               else Modified(Assign(e, kvs[i][..eq.value], kvs[i][eq.value + 1..]), kvs[i + 1..])
  {
    hide Assign;
    assert kvs[i..][0] == kvs[i] && kvs[i..][1..] == kvs[i + 1..];
  }

  lemma ModifiedEnd(e: Env, kvs: seq<bytes>)
    ensures Modified(e, kvs[|kvs|..]) == Ok(e)
  {
  }

  /** modify: nothing is written unless all arguments are well-formed. */
  method CmdModify(crc: bytes -> nat, block: bytes, kvs: seq<bytes>) returns (r: Result<bytes>)
    ensures Parse(block).Err? ==> r.Err?
    ensures Parse(block).Ok? ==>
              var m := Modified(Parse(block).value, kvs); r == if m.Err? then Err(m.error) else Serialize(crc, m.value)
  {
    hide Parse, Serialize, Modified, Assign;
    var loaded := ParseEnv(block);
    if loaded.Err? {
      return Err(loaded.error);
    }
    var entries := loaded.value;
    assert kvs[0..] == kvs;
    for i := 0 to |kvs|
      invariant Modified(entries, kvs[i..]) == Modified(loaded.value, kvs)
    {
      ModifiedStep(entries, kvs, i);
      var eq := Find(kvs[i], EQUALS);
      if eq.None? {
        return Err(ValueError);
      }
      entries := Assign(entries, kvs[i][..eq.value], kvs[i][eq.value + 1..]);
    }
    ModifiedEnd(entries, kvs);
    return Serialize(crc, entries);
  }

  /** delete */
  method CmdDelete(crc: bytes -> nat, block: bytes, keys: seq<bytes>) returns (r: Result<bytes>)
    ensures Parse(block).Err? ==> r.Err?
    ensures Parse(block).Ok? ==> r == Serialize(crc, Removed(Parse(block).value, keys))
  {
    var loaded := ParseEnv(block);
    if loaded.Err? {
      return Err(loaded.error);
    }
    var entries := loaded.value;
    assert keys[0..] == keys;
    for i := 0 to |keys|
      invariant Removed(entries, keys[i..]) == Removed(loaded.value, keys)
    {
      assert keys[i..][0] == keys[i] && keys[i..][1..] == keys[i + 1..];
      entries := Remove(entries, keys[i]);
    }
    return Serialize(crc, entries);
  }

  /** preset-symmetric; without an input block it starts from an empty environment. */
  method CmdPreset(crc: bytes -> nat, block: Option<bytes>, p: Presets) returns (r: Result<bytes>)
    ensures block.None? ==> r == Serialize(crc, Preset([], p))
    ensures block.Some? && Parse(block.value).Err? ==> r.Err?
    ensures block.Some? && Parse(block.value).Ok? ==> r == Serialize(crc, Preset(Parse(block.value).value, p))
  {
    var entries: Env := [];
    if block.Some? {
      var loaded := ParseEnv(block.value);
      if loaded.Err? {
        return Err(loaded.error);
      }
      entries := loaded.value;
    }
    entries := Assign(entries, SLOTABOOT, p.slotaboot);
    entries := Assign(entries, SLOTBBOOT, p.slotbboot);
    entries := Assign(entries, BOOTCMD_AB, p.bootcmdAb);
    if !HasKey(entries, SLOT) {
      entries := Assign(entries, SLOT, B);
    }
    return Serialize(crc, entries);
  }

  // ------------------------------------------------------------- laws of the commands

  /** e.get(k) */
  function Lookup(e: Env, k: bytes): Option<bytes> {
    if e == [] then None else if e[0].key == k then Some(e[0].value) else Lookup(e[1..], k)
  }

  lemma {:induction false} LookupAssign(e: Env, k: bytes, v: bytes, x: bytes)
    ensures Lookup(Assign(e, k, v), x) == if x == k then Some(v) else Lookup(e, x)
  {
    if e != [] && e[0].key != k {
      LookupAssign(e[1..], k, v, x);
    }
  }

  lemma {:induction false} LookupHasKey(e: Env, k: bytes)
    ensures Lookup(e, k).Some? <==> HasKey(e, k)
  {
    if e != [] {
      LookupHasKey(e[1..], k);
    }
  }

  lemma {:induction false} AssignSame(e: Env, k: bytes, v: bytes)
    requires Lookup(e, k) == Some(v)
    ensures Assign(e, k, v) == e
  {
    if e[0].key != k {
      AssignSame(e[1..], k, v);
    }
  }

  lemma PresetKeysDiffer()
    ensures SLOTABOOT != SLOTBBOOT && SLOTABOOT != BOOTCMD_AB && SLOTBBOOT != BOOTCMD_AB
    ensures SLOT != SLOTABOOT && SLOT != SLOTBBOOT && SLOT != BOOTCMD_AB
  {
    assert SLOTABOOT[4] != SLOTBBOOT[4];
    assert SLOTABOOT[0] != BOOTCMD_AB[0] && SLOTBBOOT[0] != BOOTCMD_AB[0] && SLOT[0] != BOOTCMD_AB[0];
  }

  /** The preset writes its three commands, a default slot where there was none, and nothing else. */
  lemma PresetLookup(e: Env, p: Presets, x: bytes)
    ensures SLOTABOOT == Chars("slotaboot") && SLOTBBOOT == Chars("slotbboot") && BOOTCMD_AB == Chars("bootcmd_ab")
    ensures SLOT == Chars("slot") && B == Chars("b")
    ensures Lookup(Preset(e, p), x)
         == if x == SLOTABOOT then Some(p.slotaboot)
            else if x == SLOTBBOOT then Some(p.slotbboot)
            else if x == BOOTCMD_AB then Some(p.bootcmdAb)
            else if x == SLOT && !HasKey(e, SLOT) then Some(B)
            else Lookup(e, x)
  {
    PresetKeysDiffer();
    hide Lookup, Assign, HasKey;
    var e1 := Assign(e, SLOTABOOT, p.slotaboot);
    var e2 := Assign(e1, SLOTBBOOT, p.slotbboot);
    var e3 := Assign(e2, BOOTCMD_AB, p.bootcmdAb);
    forall y ensures Lookup(e3, y) == if y == SLOTABOOT then Some(p.slotaboot)
                                      else if y == SLOTBBOOT then Some(p.slotbboot)
                                      else if y == BOOTCMD_AB then Some(p.bootcmdAb) else Lookup(e, y)
    {
      LookupAssign(e, SLOTABOOT, p.slotaboot, y);
      LookupAssign(e1, SLOTBBOOT, p.slotbboot, y);
      LookupAssign(e2, BOOTCMD_AB, p.bootcmdAb, y);
    }
    LookupHasKey(e, SLOT);
    LookupHasKey(e3, SLOT);
    LookupAssign(e3, SLOT, B, x);
  }

  lemma PresetTwice(e: Env, p: Presets)
    ensures Preset(Preset(e, p), p) == Preset(e, p)
  {
    PresetKeysDiffer();
    hide Lookup, Assign, HasKey;
    var f := Preset(e, p);
    PresetLookup(e, p, SLOTABOOT);
    PresetLookup(e, p, SLOTBBOOT);
    PresetLookup(e, p, BOOTCMD_AB);
    PresetLookup(e, p, SLOT);
    LookupHasKey(e, SLOT);
    LookupHasKey(f, SLOT);
    AssignSame(f, SLOTABOOT, p.slotaboot);
    AssignSame(f, SLOTBBOOT, p.slotbboot);
    AssignSame(f, BOOTCMD_AB, p.bootcmdAb);
  }

  predicate CleanPresets(p: Presets) {
    0 !in p.slotaboot && 0 !in p.slotbboot && 0 !in p.bootcmdAb
  }

  lemma AssignKept(e: Env, k: bytes, v: bytes)
    requires IsDict(e) && Clean(e) && CleanEntry(Entry(k, v))
    ensures IsDict(Assign(e, k, v)) && Clean(Assign(e, k, v))
  {
    AssignIsDict(e, k, v);
    AssignClean(e, k, v);
  }

  lemma PresetKept(e: Env, p: Presets)
    requires IsDict(e) && Clean(e) && CleanPresets(p)
    ensures IsDict(Preset(e, p)) && Clean(Preset(e, p))
  {
    assert CleanEntry(Entry(SLOTABOOT, p.slotaboot)) && CleanEntry(Entry(SLOTBBOOT, p.slotbboot));
    assert CleanEntry(Entry(BOOTCMD_AB, p.bootcmdAb)) && CleanEntry(Entry(SLOT, B));
    hide IsDict, Clean, CleanEntry, Assign, HasKey;
    var e1 := Assign(e, SLOTABOOT, p.slotaboot);
    var e2 := Assign(e1, SLOTBBOOT, p.slotbboot);
    var e3 := Assign(e2, BOOTCMD_AB, p.bootcmdAb);
    AssignKept(e, SLOTABOOT, p.slotaboot);
    AssignKept(e1, SLOTBBOOT, p.slotbboot);
    AssignKept(e2, BOOTCMD_AB, p.bootcmdAb);
    AssignKept(e3, SLOT, B);
  }

  /** Running the preset on a block it wrote gives that block again. */
  lemma PresetIdempotent(crc: bytes -> nat, block: bytes, p: Presets)
    requires Parse(block).Ok? && CleanPresets(p) && Serialize(crc, Preset(Parse(block).value, p)).Ok?
    ensures var b := Serialize(crc, Preset(Parse(block).value, p)).value;
            Parse(b).Ok? && Serialize(crc, Preset(Parse(b).value, p)) == Ok(b)
  {
    hide Serialize, Parse, Preset, IsDict, Clean;
    var e := Parse(block).value;
    ParsedIsClean(block);
    PresetKept(e, p);
    RoundTrip(crc, Preset(e, p));
    PresetTwice(e, p);
  }

  function KeyOf(kv: bytes): bytes {
    var i := Find(kv, EQUALS);
    if i.None? then kv else kv[..i.value]
  }

  function KeysOf(kvs: seq<bytes>): (r: seq<bytes>)
    ensures |r| == |kvs| && forall i :: 0 <= i < |kvs| ==> r[i] == KeyOf(kvs[i])
  {
    seq(|kvs|, i requires 0 <= i < |kvs| => KeyOf(kvs[i]))
  }

  lemma {:induction false} AssignBehind(e: Env, tail: Env, k: bytes, v: bytes)
    requires !HasKey(e, k)
    ensures Assign(e + tail, k, v) == e + Assign(tail, k, v)
  {
    if e == [] {
      assert e + tail == tail && e + Assign(tail, k, v) == Assign(tail, k, v);
    } else {
      AssignBehind(e[1..], tail, k, v);
      assert (e + tail)[1..] == e[1..] + tail;
      assert e + Assign(tail, k, v) == [e[0]] + (e[1..] + Assign(tail, k, v));
    }
  }

  predicate Fresh(e: Env, ks: seq<bytes>) {
    forall i :: 0 <= i < |ks| ==> !HasKey(e, ks[i])
  }

  lemma FirstFresh(e: Env, kvs: seq<bytes>)
    requires kvs != [] && EQUALS in kvs[0] && Fresh(e, KeysOf(kvs))
    ensures var k := kvs[0][..Find(kvs[0], EQUALS).value];
            KeysOf(kvs) == [k] + KeysOf(kvs[1..]) && !HasKey(e, k) && Fresh(e, KeysOf(kvs[1..]))
  {
    hide HasKey, Find;
    var ks := KeysOf(kvs);
    assert KeysOf(kvs[1..]) == ks[1..];
    assert forall i :: 0 <= i < |ks| - 1 ==> ks[1..][i] == ks[i + 1];
    assert !HasKey(e, ks[0]);
  }

  /** Modifying fresh keys only adds entries behind, under those keys. */
  lemma {:induction false} ModifiedBehind(e: Env, tail: Env, kvs: seq<bytes>) returns (more: Env)
    requires IsDict(tail) && Modified(e + tail, kvs).Ok? && Fresh(e, KeysOf(kvs))
    ensures Modified(e + tail, kvs) == Ok(e + more) && IsDict(more)
    ensures forall x :: HasKey(more, x) ==> HasKey(tail, x) || x in KeysOf(kvs)
    decreases |kvs|
  {
    hide IsDict, HasKey, Assign, KeysOf, KeyOf, Modified, Fresh;
    assert kvs[0..] == kvs;
    if kvs == [] {
      ModifiedEnd(e + tail, kvs);
      more := tail;
    } else {
      var eq, ks := Find(kvs[0], EQUALS), KeysOf(kvs);
      ModifiedStep(e + tail, kvs, 0);
      var k, v := kvs[0][..eq.value], kvs[0][eq.value + 1..];
      FirstFresh(e, kvs);
      AssignBehind(e, tail, k, v);
      AssignIsDict(tail, k, v);
      more := ModifiedBehind(e, Assign(tail, k, v), kvs[1..]);
      forall x | HasKey(more, x) ensures HasKey(tail, x) || x in ks {
        AssignHasKey(tail, k, v, x);
        if x in ks[1..] { assert x in ks; }
      }
    }
  }

  lemma {:induction false} RemoveHasKey(e: Env, k: bytes, x: bytes)
    requires IsDict(e)
    ensures HasKey(Remove(e, k), x) <==> HasKey(e, x) && x != k
  {
    if e != [] {
      RemoveHasKey(e[1..], k, x);
    }
  }

  lemma {:induction false} RemoveIsDict(e: Env, k: bytes)
    requires IsDict(e)
    ensures IsDict(Remove(e, k))
  {
    if e != [] {
      RemoveIsDict(e[1..], k);
      RemoveHasKey(e[1..], k, e[0].key);
    }
  }

  /** Deleting all keys of the entries behind leaves what was in front. */
  lemma {:induction false} RemovedBehind(e: Env, tail: Env, ks: seq<bytes>)
    requires IsDict(tail) && Fresh(e, ks) && forall x :: HasKey(tail, x) ==> x in ks
    ensures Removed(e + tail, ks) == e
    decreases |ks|
  {
    hide IsDict, HasKey;
    if ks == [] {
      EmptyWithoutKeys(tail);
      assert e + [] == e;
    } else {
      RemoveFresh(e, ks[0], tail);
      RemoveIsDict(tail, ks[0]);
      forall x | HasKey(Remove(tail, ks[0]), x) ensures x in ks[1..] {
        RemoveHasKey(tail, ks[0], x);
      }
      RemovedBehind(e, Remove(tail, ks[0]), ks[1..]);
    }
  }

  lemma EmptyWithoutKeys(e: Env)
    requires forall x :: !HasKey(e, x)
    ensures e == []
  {
    if e != [] {
      assert HasKey(e, e[0].key);
    }
  }

  lemma {:induction false} ModifiedKept(e: Env, kvs: seq<bytes>)
    requires IsDict(e) && Clean(e) && Modified(e, kvs).Ok? && forall i :: 0 <= i < |kvs| ==> 0 !in kvs[i]
    ensures IsDict(Modified(e, kvs).value) && Clean(Modified(e, kvs).value)
    decreases |kvs|
  {
    hide IsDict, Clean, Enter;
    if kvs != [] {
      EnterClean(e, kvs[0]);
      ModifiedKept(Enter(e, kvs[0]), kvs[1..]);
    }
  }

  /** Setting keys that were not there and deleting them again gives the normalised block, whatever was set. */
  lemma ModifyThenDelete(crc: bytes -> nat, block: bytes, kvs: seq<bytes>)
    requires Parse(block).Ok? && (forall i :: 0 <= i < |kvs| ==> 0 !in kvs[i])
    requires Fresh(Parse(block).value, KeysOf(kvs))
    requires var m := Modified(Parse(block).value, kvs); m.Ok? && Serialize(crc, m.value).Ok?
    ensures var e := Parse(block).value;
            var b := Serialize(crc, Modified(e, kvs).value).value;
            Parse(b).Ok? && Serialize(crc, Removed(Parse(b).value, KeysOf(kvs))) == Serialize(crc, e)
  {
    hide Serialize, Parse, IsDict, Clean, Fresh, Modified, Removed, KeysOf, HasKey;
    var e := Parse(block).value;
    ParsedIsClean(block);
    ModifiedKept(e, kvs);
    RoundTrip(crc, Modified(e, kvs).value);
    SetThenRemoved(e, kvs);
  }

  lemma SetThenRemoved(e: Env, kvs: seq<bytes>)
    requires Modified(e, kvs).Ok? && Fresh(e, KeysOf(kvs))
    ensures Removed(Modified(e, kvs).value, KeysOf(kvs)) == e
  {
    hide IsDict, Fresh, Modified, Removed, KeysOf, HasKey;
    assert e + [] == e;
    EmptyIsDict();
    var more := ModifiedBehind(e, [], kvs);
    forall x | HasKey(more, x) ensures x in KeysOf(kvs) {
      assert HasKey([], x) || x in KeysOf(kvs);
    }
    RemovedBehind(e, more, KeysOf(kvs));
  }

  lemma EmptyIsDict()
    ensures IsDict([]) && forall x :: !HasKey([], x)
  {
  }

  // ------------------------------------------------------------- blocks, octet by octet

  /** Texts as they lie in a block, each ended by NUL. */
  function Lined(texts: seq<bytes>): bytes {
    if texts == [] then [] else texts[0] + [0] + Lined(texts[1..])
  }

  lemma {:induction false} JoinedIsLined(parts: seq<bytes>)
    requires parts != []
    ensures Join(parts) + [0] == Lined(parts)
  {
    if |parts| > 1 {
      JoinedIsLined(parts[1..]);
      assert Join(parts) + [0] == parts[0] + [0] + (Join(parts[1..]) + [0]);
    }
  }

  lemma PayloadIsLined(e: Env)
    ensures Payload(e) == if e == [] then [0, 0] else Lined(Texts(e)) + [0]
  {
    if e != [] {
      JoinedIsLined(Texts(e));
      assert Payload(e) == Join(Texts(e)) + [0] + [0];
    }
  }

  function Word(a: nat, b: nat, c: nat, d: nat): nat {
    a + 256 * b + 0x1_0000 * c + 0x100_0000 * d
  }

  predicate EachAscii(e: Env) {
    forall i :: 0 <= i < |e| ==> forall c | c in e[i].key + e[i].value :: c < 128
  }

  /**
    What is written: the checksum with its lowest octet first, every 'key=value' with its NUL, and NULs up to 4096
    octets, of which there is at least one. Writing is refused for other than ASCII text and for lack of room.
   */
  lemma SerializedOctets(crc: bytes -> nat, e: Env)
    requires Checksum(crc)
    ensures |Texts(e)| == |e| && forall i :: 0 <= i < |e| ==> Texts(e)[i] == e[i].key + [61] + e[i].value
    ensures var r, text := Serialize(crc, e), Lined(Texts(e));
            && (r.Ok? <==> EachAscii(e) && |text| < 4092)
            && (r.Ok? ==> var b := r.value;
                  && |b| == 4096 && b[4..] == text + Zeros(4092 - |text|)
                  && Word(b[0], b[1], b[2], b[3]) == crc(b[4..]))
  {
    hide Lined, Texts, Payload, Resize, AllAscii, EachAscii, LE, FromLE;
    PayloadIsLined(e);
    NoText(e);
    AsciiTexts(e);
    if Serialize(crc, e).Ok? {
      var b, text := Serialize(crc, e).value, Lined(Texts(e));
      var p := Resize(Payload(e), DATA_SIZE);
      assert p == text + Zeros(4092 - |text|) by { ResizedPayload(e, text); }
      assert b[4..] == p && b[..4] == LE(crc(p), 4);
      Pow256Values();
      LERoundTrip(crc(p), 4);
      FourOctets(b[..4]);
    }
  }

  lemma NoText(e: Env)
    ensures e == [] ==> Lined(Texts(e)) == []
  {
  }

  lemma AsciiTexts(e: Env)
    ensures AllAscii(e) <==> EachAscii(e)
  {
    forall i | 0 <= i < |e|
      ensures Ascii(e[i].key) && Ascii(e[i].value) <==> forall c | c in e[i].key + e[i].value :: c < 128
    {
      var k, v := e[i].key, e[i].value;
      assert forall j :: 0 <= j < |k| ==> k[j] in k + v;
      assert forall j :: 0 <= j < |v| ==> v[j] in k + v;
      assert forall c | c in k + v :: c in k || c in v;
    }
  }

  lemma ResizedPayload(e: Env, text: bytes)
    requires Payload(e) == (if e == [] then [0, 0] else text + [0]) && |Payload(e)| <= DATA_SIZE
    requires e == [] ==> text == []
    ensures |text| <= 4092 && Resize(Payload(e), DATA_SIZE) == text + Zeros(4092 - |text|)
  {
  }

  lemma FourOctets(s: bytes)
    requires |s| == 4
    ensures FromLE(s) == Word(s[0], s[1], s[2], s[3])
  {
    var t, u, w := s[1..], s[2..], s[3..];
    assert t[1..] == u && u[1..] == w && w[1..] == [];
    assert FromLE(w) == s[3] && FromLE(u) == s[2] + 256 * FromLE(w) && FromLE(t) == s[1] + 256 * FromLE(u);
  }

  /** The texts in front of the first empty one: every data area has them. */
  ghost predicate Held(s: bytes, texts: seq<bytes>) {
    && (forall i :: 0 <= i < |texts| ==> texts[i] != [] && 0 !in texts[i])
    && Lined(texts) <= s + [0] && (|Lined(texts)| < |s| ==> s[|Lined(texts)|] == 0)
  }

  lemma {:induction false} HeldInSplit(s: bytes, texts: seq<bytes>) returns (rest: seq<bytes>)
    requires Held(s, texts)
    ensures Split(s) == texts + rest && (rest == [] || rest[0] == [])
    decreases |texts|
  {
    if texts == [] {
      rest := Split(s);
      if s != [] { SplitStep([], s[1..]); assert s == [] + [0] + s[1..]; }
    } else {
      var a, ts := texts[0], texts[1..];
      if |s| == |a| {
        NothingBehind(s, texts);
        rest := [];
      } else {
        var t := s[|a| + 1..];
        HeldBehind(s, a, ts);
        SplitStep(a, t);
        rest := HeldInSplit(t, ts);
        Assoc([a], ts, rest);
      }
      assert texts == [a] + ts;
    }
  }

  lemma NothingBehind(s: bytes, texts: seq<bytes>)
    requires Held(s, texts) && texts != [] && |s| == |texts[0]|
    ensures texts == [s] && Split(s) == [s]
  {
    var a, ts := texts[0], texts[1..];
    assert Lined(texts)[..|a|] == a == (s + [0])[..|a|];
    assert |Lined(ts)| == 0;
  }

  lemma HeldBehind(s: bytes, a: bytes, ts: seq<bytes>)
    requires Held(s, [a] + ts) && |s| != |a|
    ensures |a| < |s| && s == a + [0] + s[|a| + 1..] && Held(s[|a| + 1..], ts)
  {
    var all, l := [a] + ts, Lined(ts);
    assert all[1..] == ts && Lined(all) == a + [0] + l;
    forall i | 0 <= i < |ts| ensures ts[i] != [] && 0 !in ts[i] { assert all[i + 1] == ts[i]; }
    var t := s[|a| + 1..];
    assert s == (s + [0])[..|s|];
    assert (s + [0])[..|a|] == Lined(all)[..|a|] == a;
    assert (s + [0])[|a|] == Lined(all)[|a|] == 0;
    assert (s + [0])[|a| + 1..] == t + [0];
    assert Lined(all)[|a| + 1..] == l;
  }

  /** Every data area holds some list of texts. */
  lemma {:induction false} HeldTexts(s: bytes) returns (texts: seq<bytes>)
    ensures Held(s, texts)
    decreases |s|
  {
    var i := Find(s, 0);
    if s == [] || s[0] == 0 {
      texts := [];
    } else if i.None? {
      texts := [s];
      assert Lined([s]) == s + [0] + Lined([s][1..]) == s + [0];
    } else {
      var a, t := s[..i.value], s[i.value + 1..];
      var ts := HeldTexts(t);
      texts := [a] + ts;
      assert s == a + [0] + t;
      HeldInFront(a, t, ts);
    }
  }

  lemma HeldInFront(a: bytes, t: bytes, ts: seq<bytes>)
    requires a != [] && 0 !in a && Held(t, ts)
    ensures Held(a + [0] + t, [a] + ts)
  {
    var all, s := [a] + ts, a + [0] + t;
    assert all[1..] == ts && Lined(all) == a + [0] + Lined(ts);
    assert s + [0] == a + [0] + (t + [0]);
  }

  /** The text sets k to v: it is k, its first '=', and v. */
  ghost predicate Sets(text: bytes, k: bytes, v: bytes) {
    61 !in k && text == k + [61] + v
  }

  ghost predicate SetsKey(text: bytes, k: bytes) {
    exists v :: Sets(text, k, v)
  }

  /** What a list of texts leaves in a dictionary: the last text for a key decides, the other keys stay. */
  ghost predicate LastDecides(e: Env, f: Env, texts: seq<bytes>) {
    && (forall k | forall i :: 0 <= i < |texts| ==> !SetsKey(texts[i], k) :: Lookup(f, k) == Lookup(e, k))
    && forall k, v, n | 0 <= n < |texts| && Sets(texts[n], k, v)
                        && (forall i :: n < i < |texts| ==> !SetsKey(texts[i], k)) :: Lookup(f, k) == Some(v)
  }

  lemma SetsIs(text: bytes, k: bytes)
    ensures Find(text, 61).None? ==> !SetsKey(text, k)
    ensures var i := Find(text, 61);
            i.Some? ==> (SetsKey(text, k) <==> k == text[..i.value]) && Sets(text, text[..i.value], text[i.value + 1..])
    ensures forall v, w | Sets(text, k, v) && Sets(text, k, w) :: v == w
  {
    forall v | Sets(text, k, v) ensures Find(text, 61) == Some(|k|) && text[..|k|] == k && v == text[|k| + 1..] {
      FindBehind(k, 61, v);
    }
    var i := Find(text, 61);
    if i.Some? {
      assert text == text[..i.value] + [61] + text[i.value + 1..];
      assert Sets(text, text[..i.value], text[i.value + 1..]);
    }
  }

  /** The effect of the texts, one after the other. */
  function Entered(e: Env, texts: seq<bytes>): Env
    decreases |texts|
  {
    if texts == [] then e else Entered(Enter(e, texts[0]), texts[1..])
  }

  lemma {:induction false} EnteredLast(e: Env, texts: seq<bytes>, k: bytes)
    ensures (forall i :: 0 <= i < |texts| ==> !SetsKey(texts[i], k)) ==> Lookup(Entered(e, texts), k) == Lookup(e, k)
    ensures forall n, v | 0 <= n < |texts| && Sets(texts[n], k, v)
                          && (forall i :: n < i < |texts| ==> !SetsKey(texts[i], k)) ::
              Lookup(Entered(e, texts), k) == Some(v)
    decreases |texts|
  {
    hide Lookup, Sets, SetsKey, Enter;
    if texts != [] {
      var f, ts := Enter(e, texts[0]), texts[1..];
      EnteredLast(f, ts, k);
      EnterLookup(e, texts[0], k);
      assert forall i :: 0 < i < |texts| ==> texts[i] == ts[i - 1];
      forall n, v | 0 <= n < |texts| && Sets(texts[n], k, v)
                    && (forall i :: n < i < |texts| ==> !SetsKey(texts[i], k))
        ensures Lookup(Entered(e, texts), k) == Some(v)
      {
        if n > 0 { assert Sets(ts[n - 1], k, v); }
      }
    }
  }

  lemma EnterLookup(e: Env, text: bytes, k: bytes)
    ensures !SetsKey(text, k) ==> Lookup(Enter(e, text), k) == Lookup(e, k)
    ensures forall v | Sets(text, k, v) :: Lookup(Enter(e, text), k) == Some(v)
  {
    SetsIs(text, k);
    var i := Find(text, 61);
    hide Lookup, Sets, SetsKey, Assign;
    if i.Some? {
      LookupAssign(e, text[..i.value], text[i.value + 1..], k);
    }
  }

  lemma EnteredDecides(e: Env, texts: seq<bytes>)
    ensures LastDecides(e, Entered(e, texts), texts)
  {
    hide Lookup, Sets, SetsKey, Entered;
    forall k | forall i :: 0 <= i < |texts| ==> !SetsKey(texts[i], k)
      ensures Lookup(Entered(e, texts), k) == Lookup(e, k)
    {
      EnteredLast(e, texts, k);
    }
    forall k, v, n | 0 <= n < |texts| && Sets(texts[n], k, v)
                     && (forall i :: n < i < |texts| ==> !SetsKey(texts[i], k))
      ensures Lookup(Entered(e, texts), k) == Some(v)
    {
      EnteredLast(e, texts, k);
    }
  }

  lemma {:induction false} GatherIsEntered(e: Env, texts: seq<bytes>, rest: seq<bytes>)
    requires (forall i :: 0 <= i < |texts| ==> texts[i] != []) && (rest == [] || rest[0] == [])
    ensures Gather(e, texts + rest) == Entered(e, texts)
    ensures WellFormed(texts + rest) <==> forall i :: 0 <= i < |texts| ==> Ascii(texts[i]) && 61 in texts[i]
    decreases |texts|
  {
    hide Enter;
    if texts == [] {
      assert texts + rest == rest;
    } else {
      assert (texts + rest)[1..] == texts[1..] + rest && (texts + rest)[0] == texts[0];
      GatherIsEntered(Enter(e, texts[0]), texts[1..], rest);
      assert forall i :: 0 < i < |texts| ==> texts[i] == texts[1..][i - 1];
      assert forall i :: 0 <= i < |texts| - 1 ==> texts[1..][i] == texts[i + 1];
    }
  }

  /** What is parsed from a block: under each key the value of the last text that sets it, and no other key. */
  lemma ParsedOctets(block: bytes, texts: seq<bytes>)
    requires |block| == 4096 && Held(block[4..], texts)
    ensures Parse(block).Ok? && LastDecides([], Parse(block).value, texts)
  {
    hide Split, Gather, Entered, LastDecides, Lined;
    var rest := HeldInSplit(block[4..], texts);
    GatherIsEntered([], texts, rest);
    EnteredDecides([], texts);
  }

  lemma InAscii(s: bytes)
    ensures Ascii(s) <==> forall c | c in s :: c < 128
  {
    assert forall i :: 0 <= i < |s| ==> s[i] in s;
  }

  /** A block is accepted when its checksum is stored lowest octet first and all texts are ASCII and have an '='. */
  lemma VerifiedOctets(crc: bytes -> nat, block: bytes, texts: seq<bytes>)
    requires |block| == 4096 && Held(block[4..], texts)
    ensures Verified(crc, block)
            <==> Word(block[0], block[1], block[2], block[3]) == crc(block[4..])
                 && forall i :: 0 <= i < |texts| ==> 61 in texts[i] && forall c | c in texts[i] :: c < 128
  {
    hide Split, WellFormed, Lined, FromLE, Entered;
    var rest := HeldInSplit(block[4..], texts);
    GatherIsEntered([], texts, rest);
    FourOctets(block[..4]);
    forall i | 0 <= i < |texts| ensures Ascii(texts[i]) <==> forall c | c in texts[i] :: c < 128 { InAscii(texts[i]); }
  }

  /** Assignments are refused when one has no '='; else the last one for a key decides and other keys stay. */
  lemma ModifiedOctets(e: Env, kvs: seq<bytes>)
    ensures Modified(e, kvs).Ok? <==> forall i :: 0 <= i < |kvs| ==> 61 in kvs[i]
    ensures Modified(e, kvs).Ok? ==> LastDecides(e, Modified(e, kvs).value, kvs)
  {
    hide LastDecides;
    ModifiedIsEntered(e, kvs);
    EnteredDecides(e, kvs);
  }

  lemma {:induction false} ModifiedIsEntered(e: Env, kvs: seq<bytes>)
    ensures Modified(e, kvs).Ok? <==> forall i :: 0 <= i < |kvs| ==> 61 in kvs[i]
    ensures Modified(e, kvs).Ok? ==> Modified(e, kvs).value == Entered(e, kvs)
    decreases |kvs|
  {
    hide Enter;
    if kvs != [] {
      ModifiedIsEntered(Enter(e, kvs[0]), kvs[1..]);
      assert forall i :: 0 < i < |kvs| ==> kvs[i] == kvs[1..][i - 1];
      assert forall i :: 0 <= i < |kvs| - 1 ==> kvs[1..][i] == kvs[i + 1];
    }
  }

  /** Deleted keys are gone and the others keep their values. */
  lemma {:induction false} RemovedLookup(e: Env, keys: seq<bytes>, x: bytes)
    requires IsDict(e)
    ensures Lookup(Removed(e, keys), x) == if x in keys then None else Lookup(e, x)
    decreases |keys|
  {
    hide IsDict, Lookup, Remove;
    if keys != [] {
      RemoveIsDict(e, keys[0]);
      LookupRemove(e, keys[0], x);
      RemovedLookup(Remove(e, keys[0]), keys[1..], x);
    }
  }

  lemma {:induction false} LookupRemove(e: Env, k: bytes, x: bytes)
    requires IsDict(e)
    ensures Lookup(Remove(e, k), x) == if x == k then None else Lookup(e, x)
  {
    if e != [] {
      LookupHasKey(e[1..], k);
      LookupRemove(e[1..], k, x);
    }
  }
}
