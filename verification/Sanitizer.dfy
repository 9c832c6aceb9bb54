/** The audit log's sanitizer: long strings are cut, values under sensitive keys are redacted. */
module Sanitizer {
  import opened Text

  /** A finite tree of request data; an object is its own entries in order. */
  datatype Json =
    | Null
    | Undefined
    | Boolean(b: bool)
    | Number(n: int)
    | String(s: string)
    | Array(elems: seq<Json>)
    | Object(entries: seq<Entry>)

  datatype Entry = Entry(key: string, value: Json)

  const MAX_VALUE_LENGTH: nat := 200
  const TRUNCATION_SUFFIX: string := "...[truncated]"
  const REDACTED: Json := String("[REDACTED]")

  /** Assigning this key sets the prototype of an object, not a property. */
  const PROTO: string := "__proto__"

  const SENSITIVE_WORDS: seq<string> := [
    "pass", "secret", "token", "key", "credential", "auth", "cookie", "cvv", "pin", "otp", "hash", "salt",
    "nonce", "ssn", "cpf", "cnpj", "rg", "birth", "dob", "phone", "address", "card"]

  predicate Sensitive(key: string) {
    exists i | 0 <= i < |SENSITIVE_WORDS| :: Contains(Lower(key), SENSITIVE_WORDS[i])
  }

  predicate KeysDistinct(entries: seq<Entry>) {
    forall i, j | 0 <= i < j < |entries| :: entries[i].key != entries[j].key
  }

  /** No object anywhere has two entries with one key. */
  predicate WellFormed(v: Json) {
    match v
    case Array(elems) => forall e | e in elems :: WellFormed(e)
    case Object(entries) => KeysDistinct(entries) && forall e | e in entries :: WellFormed(e.value)
    case _ => true
  }

  // ---------- What sanitizing gives ----------

  function Truncate(s: string): string {
    if |s| <= MAX_VALUE_LENGTH then s else s[..MAX_VALUE_LENGTH] + TRUNCATION_SUFFIX
  }

  function Sanitized(v: Json): Json {
    match v
    case String(s) => String(Truncate(s))
    case Array(elems) => Array(SanitizedElems(elems))
    case Object(entries) => Object(SanitizedEntries(entries))
    case _ => v
  }

  function SanitizedElems(elems: seq<Json>): seq<Json> {
    if elems == [] then [] else [Sanitized(elems[0])] + SanitizedElems(elems[1..])
  }

  function SanitizedEntry(e: Entry): Entry
    decreases e, 0
  {
    Entry(e.key, if Sensitive(e.key) then REDACTED else Sanitized(e.value))
  }

  function Part(e: Entry): seq<Entry>
    decreases e, 1
  {
    if e.key == PROTO then [] else [SanitizedEntry(e)]
  }

  function SanitizedEntries(entries: seq<Entry>): seq<Entry> {
    if entries == [] then [] else Part(entries[0]) + SanitizedEntries(entries[1..])
  }

  // ---------- The recursive walk ----------

  /** `clone[key] = value`. */
  function Assign(clone: seq<Entry>, key: string, value: Json): seq<Entry> {
    if key == PROTO then clone
    else if clone == [] then [Entry(key, value)]
    else if clone[0].key == key then [Entry(key, value)] + clone[1..]
    else [clone[0]] + Assign(clone[1..], key, value)
  }

  lemma {:induction false} AssignNew(clone: seq<Entry>, key: string, value: Json)
    requires key != PROTO && forall e | e in clone :: e.key != key
    ensures Assign(clone, key, value) == clone + [Entry(key, value)]
  {
    if clone != [] {
      AssignNew(clone[1..], key, value);
    }
  }

  lemma {:induction false} SanitizedEntriesSnoc(entries: seq<Entry>, e: Entry)
    ensures SanitizedEntries(entries + [e]) == SanitizedEntries(entries) + Part(e)
  {
    if entries == [] {
      assert entries + [e] == [e];
    } else {
      assert (entries + [e])[1..] == entries[1..] + [e];
      SanitizedEntriesSnoc(entries[1..], e);
      assert Part(entries[0]) + (SanitizedEntries(entries[1..]) + Part(e)) ==
               (Part(entries[0]) + SanitizedEntries(entries[1..])) + Part(e);
    }
  }

  lemma {:induction false} SanitizedElemsSnoc(elems: seq<Json>, e: Json)
    ensures SanitizedElems(elems + [e]) == SanitizedElems(elems) + [Sanitized(e)]
  {
    if elems == [] {
      assert elems + [e] == [e];
    } else {
      assert (elems + [e])[1..] == elems[1..] + [e];
      SanitizedElemsSnoc(elems[1..], e);
    }
  }

  /** Every key of the result is a key of the input. */
  lemma {:induction false} KeysComeFromInput(entries: seq<Entry>, e: Entry)
    requires e in SanitizedEntries(entries)
    ensures exists o | o in entries :: o.key == e.key && e == SanitizedEntry(o)
  {
    if e in SanitizedEntries(entries[1..]) {
      KeysComeFromInput(entries[1..], e);
    } else {
      assert e in Part(entries[0]) && e == SanitizedEntry(entries[0]);
    }
  }

  method Sanitize(v: Json) returns (r: Json)
    requires WellFormed(v)
    ensures r == Sanitized(v)
    decreases v
  {
    match v
    case String(s) =>
      if |s| <= MAX_VALUE_LENGTH {
        return v;
      }
      r := String(s[..MAX_VALUE_LENGTH] + TRUNCATION_SUFFIX);
    case Array(elems) =>
      var mapped: seq<Json> := [];
      for i := 0 to |elems|
        invariant mapped == SanitizedElems(elems[..i])
      {
        var e := Sanitize(elems[i]);
        SanitizedElemsSnoc(elems[..i], elems[i]);
        assert elems[..i + 1] == elems[..i] + [elems[i]];
        mapped := mapped + [e];
      }
      assert elems[..|elems|] == elems;
      r := Array(mapped);
    case Object(entries) =>
      var clone: seq<Entry> := [];
      for i := 0 to |entries|
        invariant clone == SanitizedEntries(entries[..i])
      {
        var key := entries[i].key;
        var value := REDACTED;
        if !Sensitive(key) {
          value := Sanitize(entries[i].value);
        }
        forall e | e in clone ensures e.key != key {
          KeysComeFromInput(entries[..i], e);
        }
        if key != PROTO {
          AssignNew(clone, key, value);
        }
        SanitizedEntriesSnoc(entries[..i], entries[i]);
        assert entries[..i + 1] == entries[..i] + [entries[i]];
        clone := Assign(clone, key, value);
      }
      assert entries[..|entries|] == entries;
      r := Object(clone);
    case _ =>
      r := v;
  }

  // ---------- Sanitizing twice ----------

  lemma TruncateTwice(s: string)
    ensures Truncate(Truncate(s)) == Truncate(s)
  {
    if |s| > MAX_VALUE_LENGTH {
      assert Truncate(s)[..MAX_VALUE_LENGTH] == s[..MAX_VALUE_LENGTH];
    }
  }

  /** A sanitized tree is left as it is. */
  lemma {:induction false} SanitizeTwice(v: Json)
    ensures Sanitized(Sanitized(v)) == Sanitized(v)
    decreases v
  {
    match v
    case String(s) => TruncateTwice(s);
    case Array(elems) => SanitizeElemsTwice(elems);
    case Object(entries) => SanitizeEntriesTwice(entries);
    case _ =>
  }

  lemma {:induction false} SanitizeElemsTwice(elems: seq<Json>)
    ensures SanitizedElems(SanitizedElems(elems)) == SanitizedElems(elems)
    decreases elems
  {
    if elems != [] {
      SanitizeTwice(elems[0]);
      SanitizeElemsTwice(elems[1..]);
      assert SanitizedElems(elems)[1..] == SanitizedElems(elems[1..]);
    }
  }

  lemma {:induction false} SanitizeEntriesTwice(entries: seq<Entry>)
    ensures SanitizedEntries(SanitizedEntries(entries)) == SanitizedEntries(entries)
    decreases entries
  {
    if entries != [] {
      SanitizeTwice(entries[0].value);
      SanitizeEntriesTwice(entries[1..]);
      var rest := SanitizedEntries(entries[1..]);
      if entries[0].key == PROTO {
        assert SanitizedEntries(entries) == rest;
      } else {
        assert SanitizedEntries(entries)[1..] == rest;
        assert SanitizedEntry(SanitizedEntry(entries[0])) == SanitizedEntry(entries[0]);
      }
    }
  }

  // ---------- What stays visible ----------

  /** `r` is `v` with long strings cut and sensitive entries redacted: same keys, same order, same lengths. */
  predicate Keeps(v: Json, r: Json) {
    match v
    case String(s) => r.String? && r.s == if |s| <= 200 then s else s[..200] + "...[truncated]"
    case Array(elems) => r.Array? && KeepsElems(elems, r.elems)
    case Object(entries) => r.Object? && KeepsEntries(entries, r.entries)
    case _ => r == v
  }

  predicate KeepsElems(elems: seq<Json>, rs: seq<Json>) {
    if elems == [] then rs == []
    else rs != [] && Keeps(elems[0], rs[0]) && KeepsElems(elems[1..], rs[1..])
  }

  predicate KeepsEntries(entries: seq<Entry>, rs: seq<Entry>) {
    if entries == [] then rs == []
    else
      && rs != [] && rs[0].key == entries[0].key
      && (if Sensitive(entries[0].key) then rs[0].value == String("[REDACTED]")
          else Keeps(entries[0].value, rs[0].value))
      && KeepsEntries(entries[1..], rs[1..])
  }

  /** No object outside the redacted values has the key that sets a prototype. */
  predicate NoProto(v: Json) {
    match v
    case Array(elems) => NoProtoElems(elems)
    case Object(entries) => NoProtoEntries(entries)
    case _ => true
  }

  predicate NoProtoElems(elems: seq<Json>) {
    elems == [] || (NoProto(elems[0]) && NoProtoElems(elems[1..]))
  }

  predicate NoProtoEntries(entries: seq<Entry>) {
    entries == [] ||
    (entries[0].key != PROTO && (Sensitive(entries[0].key) || NoProto(entries[0].value))
     && NoProtoEntries(entries[1..]))
  }

  lemma {:induction false} KeptAreAsMany(entries: seq<Entry>, rs: seq<Entry>)
    requires KeepsEntries(entries, rs)
    ensures |rs| == |entries|
  {
    if entries != [] {
      KeptAreAsMany(entries[1..], rs[1..]);
    }
  }

  lemma {:induction false} NeverMoreEntries(entries: seq<Entry>)
    ensures |SanitizedEntries(entries)| <= |entries|
  {
    if entries != [] {
      NeverMoreEntries(entries[1..]);
    }
  }

  /** Everything but redacted values and the tails of long strings survives, exactly when no such key occurs. */
  lemma {:induction false} ShapeKeptIff(v: Json)
    ensures Keeps(v, Sanitized(v)) <==> NoProto(v)
    decreases v
  {
    match v
    case Array(elems) => ElemsKeptIff(elems);
    case Object(entries) => EntriesKeptIff(entries);
    case _ =>
  }

  lemma {:induction false} ElemsKeptIff(elems: seq<Json>)
    ensures KeepsElems(elems, SanitizedElems(elems)) <==> NoProtoElems(elems)
    decreases elems
  {
    if elems != [] {
      ShapeKeptIff(elems[0]);
      ElemsKeptIff(elems[1..]);
      assert SanitizedElems(elems)[1..] == SanitizedElems(elems[1..]);
    }
  }

  lemma {:induction false} EntriesKeptIff(entries: seq<Entry>)
    ensures KeepsEntries(entries, SanitizedEntries(entries)) <==> NoProtoEntries(entries)
    decreases entries
  {
    if entries != [] {
      if entries[0].key == PROTO {
        assert SanitizedEntries(entries) == SanitizedEntries(entries[1..]);
        NeverMoreEntries(entries[1..]);
        if KeepsEntries(entries, SanitizedEntries(entries)) {
          KeptAreAsMany(entries, SanitizedEntries(entries));
        }
      } else {
        ShapeKeptIff(entries[0].value);
        EntriesKeptIff(entries[1..]);
        assert SanitizedEntries(entries) == [SanitizedEntry(entries[0])] + SanitizedEntries(entries[1..]);
        assert SanitizedEntries(entries)[1..] == SanitizedEntries(entries[1..]);
      }
    }
  }

  /** One such entry is enough: it is not in the result. */
  lemma ProtoEntryIsLost(value: Json)
    ensures Sanitized(Object([Entry(PROTO, value)])) == Object([])
    ensures !Keeps(Object([Entry(PROTO, value)]), Sanitized(Object([Entry(PROTO, value)])))
  {
    var entries := [Entry(PROTO, value)];
    assert SanitizedEntries(entries[1..]) == [];
    assert SanitizedEntries(entries) == [];
    assert !KeepsEntries(entries, []);
  }

  // ---------- What is hidden ----------

  /** The trees differ at most under sensitive keys, past the cut of long strings, and in dropped entries. */
  predicate Alike(v: Json, w: Json)
    decreases v
  {
    match v
    case String(s) => w.String? && (s == w.s || (|s| > 200 && |w.s| > 200 && s[..200] == w.s[..200]))
    case Array(elems) => w.Array? && AlikeElems(elems, w.elems)
    case Object(entries) => w.Object? && AlikeEntries(entries, w.entries)
    case _ => w == v
  }

  predicate AlikeElems(vs: seq<Json>, ws: seq<Json>)
    decreases vs
  {
    if vs == [] || ws == [] then vs == ws
    else Alike(vs[0], ws[0]) && AlikeElems(vs[1..], ws[1..])
  }

  predicate AlikeEntries(vs: seq<Entry>, ws: seq<Entry>)
    decreases vs, ws
  {
    if vs != [] && vs[0].key == PROTO then AlikeEntries(vs[1..], ws)
    else if ws != [] && ws[0].key == PROTO then AlikeEntries(vs, ws[1..])
    else if vs == [] || ws == [] then vs == ws
    else
      && vs[0].key == ws[0].key
      && (Sensitive(vs[0].key) || Alike(vs[0].value, ws[0].value))
      && AlikeEntries(vs[1..], ws[1..])
  }

  lemma HeadAndTail<T>(x: T, xs: seq<T>, y: T, ys: seq<T>)
    ensures [x] + xs == [y] + ys <==> x == y && xs == ys
  {
    assert ([x] + xs)[1..] == xs && ([y] + ys)[1..] == ys;
    assert ([x] + xs)[0] == x && ([y] + ys)[0] == y;
  }

  lemma CutAlikeIff(s: string, t: string)
    ensures Truncate(s) == Truncate(t) <==> s == t || (|s| > 200 && |t| > 200 && s[..200] == t[..200])
  {
    if |s| > 200 {
      assert Truncate(s)[..200] == s[..200];
    }
    if |t| > 200 {
      assert Truncate(t)[..200] == t[..200];
    }
  }

  /** Two trees are logged alike exactly when they differ only in what is hidden. */
  lemma {:induction false} IndistinguishableIff(v: Json, w: Json)
    ensures Sanitized(v) == Sanitized(w) <==> Alike(v, w)
    decreases v
  {
    match v
    case String(s) =>
      if w.String? {
        CutAlikeIff(s, w.s);
      }
    case Array(elems) =>
      if w.Array? {
        ElemsIndistinguishableIff(elems, w.elems);
      }
    case Object(entries) =>
      if w.Object? {
        EntriesIndistinguishableIff(entries, w.entries);
      }
    case _ =>
  }

  lemma {:induction false} ElemsIndistinguishableIff(vs: seq<Json>, ws: seq<Json>)
    ensures SanitizedElems(vs) == SanitizedElems(ws) <==> AlikeElems(vs, ws)
    decreases vs
  {
    if vs != [] && ws != [] {
      IndistinguishableIff(vs[0], ws[0]);
      ElemsIndistinguishableIff(vs[1..], ws[1..]);
      HeadAndTail(Sanitized(vs[0]), SanitizedElems(vs[1..]), Sanitized(ws[0]), SanitizedElems(ws[1..]));
    }
  }

  lemma {:induction false} EntriesIndistinguishableIff(vs: seq<Entry>, ws: seq<Entry>)
    ensures SanitizedEntries(vs) == SanitizedEntries(ws) <==> AlikeEntries(vs, ws)
    decreases vs, ws
  {
    if vs != [] && vs[0].key == PROTO {
      assert SanitizedEntries(vs) == SanitizedEntries(vs[1..]);
      EntriesIndistinguishableIff(vs[1..], ws);
    } else if ws != [] && ws[0].key == PROTO {
      assert SanitizedEntries(ws) == SanitizedEntries(ws[1..]);
      EntriesIndistinguishableIff(vs, ws[1..]);
    } else if vs != [] && ws != [] {
      IndistinguishableIff(vs[0].value, ws[0].value);
      EntriesIndistinguishableIff(vs[1..], ws[1..]);
      HeadAndTail(SanitizedEntry(vs[0]), SanitizedEntries(vs[1..]), SanitizedEntry(ws[0]), SanitizedEntries(ws[1..]));
    }
  }

  /** Nothing under a sensitive key, and no string longer than the cut, is in the tree. */
  predicate Clean(v: Json) {
    match v
    case String(s) => |s| <= MAX_VALUE_LENGTH + |TRUNCATION_SUFFIX|
    case Array(elems) => forall e | e in elems :: Clean(e)
    case Object(entries) => forall e | e in entries :: if Sensitive(e.key) then e.value == REDACTED else Clean(e.value)
    case _ => true
  }

  lemma {:induction false} ElemOrigin(elems: seq<Json>, r: Json) returns (e: Json)
    requires r in SanitizedElems(elems)
    ensures e in elems && r == Sanitized(e)
  {
    if r == Sanitized(elems[0]) {
      e := elems[0];
    } else {
      e := ElemOrigin(elems[1..], r);
    }
  }

  /** What is written to the log is clean. */
  lemma {:induction false} SanitizedIsClean(v: Json)
    ensures Clean(Sanitized(v))
    decreases v
  {
    match v
    case Array(elems) =>
      forall r | r in SanitizedElems(elems) ensures Clean(r) {
        var e := ElemOrigin(elems, r);
        SanitizedIsClean(e);
      }
    case Object(entries) =>
      forall r | r in SanitizedEntries(entries)
        ensures if Sensitive(r.key) then r.value == REDACTED else Clean(r.value)
      {
        KeysComeFromInput(entries, r);
        var o :| o in entries && o.key == r.key && r == SanitizedEntry(o);
        SanitizedIsClean(o.value);
      }
    case _ =>
  }
}
