/**
 * Fuzzy e-mail identity: a pluggable matcher over two e-mail addresses, and a
 * map and a set that look keys up by scanning the keys they hold with that
 * matcher instead of exact equality (src/backend/logic/email.logic.ts).
 *
 * Both containers subclass JavaScript's `Map` and `Set`, whose storage keeps
 * distinct keys in insertion order and never reorders them; `keys`/`values`
 * and `elements` below are that storage.
 */
module Email {
  import opened Wrappers
  import opened Text

  /** `EmailMatcher`: decides whether two addresses denote the same person. */
  type Matcher = (string, string) -> bool

  /** `email.split("@")[0]`: the text before the first '@', or all of it when there is none. */
  function LocalPart(email: string): (local: string)
    ensures local <= email && '@' !in local
    ensures |local| < |email| ==> email[|local|] == '@'
  {
    var fields := Split(email, '@');
    JoinSplit(email, '@');
    JoinPrefix(fields, '@');
    fields[0]
  }

  lemma JoinPrefix(parts: seq<string>, sep: char)
    requires 1 <= |parts|
    ensures parts[0] <= Join(parts, sep)
    ensures |parts| > 1 ==> |parts[0]| < |Join(parts, sep)| && Join(parts, sep)[|parts[0]|] == sep
  {
    if |parts| > 1 {
      assert Join(parts, sep) == parts[0] + [sep] + Join(parts[1..], sep);
    }
  }

  /** `IgnoreDomain`: the addresses agree before their first '@', letter case included. */
  function IgnoreDomain(email1: string, email2: string): bool {
    LocalPart(email1) == LocalPart(email2)
  }

  lemma {:induction false} LocalPartOf(local: string, domain: string)
    requires '@' !in local
    ensures LocalPart(local + "@" + domain) == local
  {
    var s := local + "@" + domain;
    var l := LocalPart(s);
    assert forall i :: 0 <= i < |local| ==> s[i] == local[i] && s[i] != '@';
    assert s[|local|] == '@';
    assert |l| == |local|;
    assert l == s[..|l|];
    assert s[..|local|] == local;
  }

  /** Two addresses match under IgnoreDomain exactly when their local parts are equal,
      whatever their domains. */
  lemma IgnoreDomainOfAddresses(local1: string, domain1: string, local2: string, domain2: string)
    requires '@' !in local1 && '@' !in local2
    ensures IgnoreDomain(local1 + "@" + domain1, local2 + "@" + domain2) <==> local1 == local2
  {
    LocalPartOf(local1, domain1);
    LocalPartOf(local2, domain2);
  }

  ghost predicate Reflexive(matcher: Matcher) {
    forall a :: matcher(a, a)
  }

  ghost predicate Symmetric(matcher: Matcher) {
    forall a, b :: matcher(a, b) ==> matcher(b, a)
  }

  ghost predicate Transitive(matcher: Matcher) {
    forall a, b, c :: matcher(a, b) && matcher(b, c) ==> matcher(a, c)
  }

  /** IgnoreDomain is an equivalence relation. */
  lemma IgnoreDomainIsEquivalence()
    ensures Reflexive(IgnoreDomain) && Symmetric(IgnoreDomain) && Transitive(IgnoreDomain)
  {
  }

  predicate Distinct(keys: seq<string>) {
    forall i, j :: 0 <= i < j < |keys| ==> keys[i] != keys[j]
  }

  /** The position of the first stored key, in insertion order, that `key` matches. */
  function FirstMatch(matcher: Matcher, keys: seq<string>, key: string): (r: Option<nat>)
    ensures r.Some? ==> r.value < |keys| && matcher(key, keys[r.value])
    ensures r.Some? ==> forall j {:trigger matcher(key, keys[j])} :: 0 <= j < r.value ==> !matcher(key, keys[j])
    ensures r.None? <==> forall j {:trigger matcher(key, keys[j])} :: 0 <= j < |keys| ==> !matcher(key, keys[j])
  {
    if keys == [] then None
    else if matcher(key, keys[0]) then Some(0)
    else match FirstMatch(matcher, keys[1..], key)
      case None => None
      case Some(j) => Some(j + 1)
  }

  /** The position of `key` itself among distinct keys. */
  function IndexOf(keys: seq<string>, key: string): (i: nat)
    requires key in keys
    ensures i < |keys| && keys[i] == key
  {
    if keys[0] == key then 0 else 1 + IndexOf(keys[1..], key)
  }

  /** `EmailMap.get`: the value of the first matching key, or `undefined`. */
  function Lookup<T>(matcher: Matcher, keys: seq<string>, values: seq<T>, key: string): Option<T>
    requires |keys| == |values|
  {
    match FirstMatch(matcher, keys, key)
    case Some(i) => Some(values[i])
    case None => None
  }

  /** `Map.prototype.set` on the underlying storage: overwrite in place or append. */
  function StoreSet<T>(keys: seq<string>, values: seq<T>, key: string, value: T): (seq<string>, seq<T>)
    requires |keys| == |values|
  {
    if key in keys then (keys, values[IndexOf(keys, key) := value]) else (keys + [key], values + [value])
  }

  /** `EmailMap.set`: the storage after setting `key` to `value`. */
  function Put<T>(matcher: Matcher, keys: seq<string>, values: seq<T>, key: string, value: T): (seq<string>, seq<T>)
    requires |keys| == |values|
  {
    match FirstMatch(matcher, keys, key)
    case Some(i) => (keys, values[i := value])
    case None => StoreSet(keys, values, key, value)
  }

  /** When a stored key matches, `set` changes the value of the first such key and nothing else. */
  lemma PutOnMatch<T>(matcher: Matcher, keys: seq<string>, values: seq<T>, key: string, value: T, i: nat)
    requires |keys| == |values|
    requires i < |keys| && matcher(key, keys[i]) && forall j :: 0 <= j < i ==> !matcher(key, keys[j])
    ensures Put(matcher, keys, values, key, value).0 == keys
    ensures var vs := Put(matcher, keys, values, key, value).1;
      |vs| == |values| && vs[i] == value && forall j :: 0 <= j < |vs| && j != i ==> vs[j] == values[j]
  {
    assert FirstMatch(matcher, keys, key) == Some(i);
  }

  /** When no stored key matches a key that matches itself, `set` appends the new entry. */
  lemma PutOnNoMatch<T>(matcher: Matcher, keys: seq<string>, values: seq<T>, key: string, value: T)
    requires |keys| == |values|
    requires matcher(key, key)
    requires forall j :: 0 <= j < |keys| ==> !matcher(key, keys[j])
    ensures Put(matcher, keys, values, key, value) == (keys + [key], values + [value])
  {
    assert key !in keys;
  }

  /** With a reflexive matcher, `get(k)` right after `set(k, v)` gives `v`. */
  lemma LookupAfterPut<T>(matcher: Matcher, keys: seq<string>, values: seq<T>, key: string, value: T)
    requires |keys| == |values|
    requires Reflexive(matcher)
    ensures var (ks, vs) := Put(matcher, keys, values, key, value);
      |ks| == |vs| && Lookup(matcher, ks, vs, key) == Some(value)
  {
    match FirstMatch(matcher, keys, key)
    case Some(i) =>
      PutOnMatch(matcher, keys, values, key, value, i);
    case None =>
      assert matcher(key, key);
      PutOnNoMatch(matcher, keys, values, key, value);
      var ks := keys + [key];
      assert ks[|keys|] == key;
      assert forall j :: 0 <= j < |keys| ==> ks[j] == keys[j];
      assert FirstMatch(matcher, ks, key) == Some(|keys|);
  }

  /** No two stored keys match each other. */
  ghost predicate Unambiguous(matcher: Matcher, keys: seq<string>) {
    forall i, j :: 0 <= i < |keys| && 0 <= j < |keys| && i != j ==> !matcher(keys[i], keys[j])
  }

  /** With a symmetric matcher, `set` never makes two stored keys match each other. */
  lemma PutKeepsUnambiguous<T>(matcher: Matcher, keys: seq<string>, values: seq<T>, key: string, value: T)
    requires |keys| == |values|
    requires Symmetric(matcher) && Unambiguous(matcher, keys)
    ensures Unambiguous(matcher, Put(matcher, keys, values, key, value).0)
  {
    var ks := Put(matcher, keys, values, key, value).0;
    if ks != keys {
      assert ks == keys + [key];
      forall i, j | 0 <= i < |ks| && 0 <= j < |ks| && i != j
        ensures !matcher(ks[i], ks[j])
      {
        if i == |keys| {
          assert !matcher(key, keys[j]);
        } else if j == |keys| {
          assert !matcher(key, keys[i]);
        }
      }
    }
  }

  /** Among unambiguous keys and with a reflexive matcher, a stored key finds itself. */
  lemma FirstMatchOfStoredKey(matcher: Matcher, keys: seq<string>, i: nat)
    requires i < |keys|
    requires Reflexive(matcher) && Unambiguous(matcher, keys)
    ensures FirstMatch(matcher, keys, keys[i]) == Some(i)
  {
    assert matcher(keys[i], keys[i]);
  }

  /** Setting two matching keys in turn on an empty map: one entry, under the first spelling,
      holding the second value, and both keys find it. */
  lemma SetTwoMatchingKeys<T>(matcher: Matcher, k1: string, v1: T, k2: string, v2: T)
    requires Reflexive(matcher) && Symmetric(matcher) && matcher(k1, k2)
    ensures var (ks1, vs1) := Put(matcher, [], [], k1, v1);
      var (ks, vs) := Put(matcher, ks1, vs1, k2, v2);
      ks == [k1] && vs == [v2]
      && Lookup(matcher, ks, vs, k1) == Some(v2) && Lookup(matcher, ks, vs, k2) == Some(v2)
  {
    assert matcher(k1, k1);
    PutOnNoMatch(matcher, [], [], k1, v1);
    assert matcher(k2, k1);
    PutOnMatch(matcher, [k1], [v1], k2, v2, 0);
  }

  /** A stored key's match survives appending further keys. */
  lemma FirstMatchExtend(matcher: Matcher, keys: seq<string>, more: seq<string>, key: string)
    requires FirstMatch(matcher, keys, key).Some?
    ensures FirstMatch(matcher, keys + more, key) == FirstMatch(matcher, keys, key)
  {
    var i := FirstMatch(matcher, keys, key).value;
    var ks := keys + more;
    assert ks[i] == keys[i];
    assert forall j :: 0 <= j < i ==> ks[j] == keys[j];
  }

  /** `EmailMap<T>`: a `Map<string, T>` whose `has`, `get` and `set` go through the matcher. */
  class EmailMap<T> {
    const matcher: Matcher
    var keys: seq<string>
    var values: seq<T>

    ghost predicate Valid()
      reads this
    {
      |keys| == |values| && Distinct(keys)
    }

    constructor (matcher: Matcher)
      ensures Valid() && this.matcher == matcher && keys == [] && values == []
    {
      this.matcher := matcher;
      keys, values := [], [];
    }

    /** `has(key)`: some stored key matches `key`. */
    method Has(key: string) returns (found: bool)
      requires Valid()
      ensures found <==> exists i :: 0 <= i < |keys| && matcher(key, keys[i])
    {
      var i := 0;
      while i < |keys|
        invariant 0 <= i <= |keys|
        invariant forall j :: 0 <= j < i ==> !matcher(key, keys[j])
      {
        if matcher(key, keys[i]) {
          return true;
        }
        i := i + 1;
      }
      return false;
    }

    /** `get(key)`: the value of the first matching key in insertion order, or `undefined`. */
    method Get(key: string) returns (r: Option<T>)
      requires Valid()
      ensures r == Lookup(matcher, keys, values, key)
    {
      var i := 0;
      while i < |keys|
        invariant 0 <= i <= |keys|
        invariant forall j :: 0 <= j < i ==> !matcher(key, keys[j])
      {
        if matcher(key, keys[i]) {
          assert FirstMatch(matcher, keys, key) == Some(i);
          return Some(values[i]);
        }
        i := i + 1;
      }
      return None;
    }

    /** `set(key, value)`: overwrite the first matching key's value, keeping its spelling,
        or store a new entry under `key`. */
    method Set(key: string, value: T)
      requires Valid()
      modifies this
      ensures Valid()
      ensures (keys, values) == Put(matcher, old(keys), old(values), key, value)
    {
      var i := 0;
      while i < |keys|
        invariant 0 <= i <= |keys|
        invariant forall j :: 0 <= j < i ==> !matcher(key, keys[j])
      {
        if matcher(key, keys[i]) {
          assert FirstMatch(matcher, keys, key) == Some(i);
          values := values[i := value];
          return;
        }
        i := i + 1;
      }
      if key in keys {
        values := values[IndexOf(keys, key) := value];
      } else {
        keys, values := keys + [key], values + [value];
      }
    }
  }

  /** `Set.prototype.add` on the underlying storage. */
  function StoreAdd(elements: seq<string>, key: string): seq<string> {
    if key in elements then elements else elements + [key]
  }

  /** `EmailSet.add`: the storage after adding `key`. */
  function Insert(matcher: Matcher, elements: seq<string>, key: string): seq<string> {
    if FirstMatch(matcher, elements, key).Some? then elements else StoreAdd(elements, key)
  }

  /** `add(key)` leaves the set alone when a stored element matches, and otherwise appends
      a self-matching key. */
  lemma InsertCases(matcher: Matcher, elements: seq<string>, key: string)
    ensures (exists i :: 0 <= i < |elements| && matcher(key, elements[i]))
            ==> Insert(matcher, elements, key) == elements
    ensures (forall i :: 0 <= i < |elements| ==> !matcher(key, elements[i])) && matcher(key, key)
            ==> Insert(matcher, elements, key) == elements + [key]
  {
    if key in elements {
      var i := IndexOf(elements, key);
      assert matcher(key, key) ==> matcher(key, elements[i]);
    }
  }

  /** With a symmetric matcher, `add` never makes two stored elements match each other. */
  lemma InsertKeepsUnambiguous(matcher: Matcher, elements: seq<string>, key: string)
    requires Symmetric(matcher) && Unambiguous(matcher, elements)
    ensures Unambiguous(matcher, Insert(matcher, elements, key))
  {
    var es := Insert(matcher, elements, key);
    if es != elements {
      assert es == elements + [key];
      forall i, j | 0 <= i < |es| && 0 <= j < |es| && i != j
        ensures !matcher(es[i], es[j])
      {
        if i == |elements| {
          assert !matcher(key, elements[j]);
        } else if j == |elements| {
          assert !matcher(key, elements[i]);
        }
      }
    }
  }

  /** The elements a set holds after adding `keys` in order to an empty set. */
  function InsertAll(matcher: Matcher, keys: seq<string>): seq<string> {
    if keys == [] then [] else Insert(matcher, InsertAll(matcher, keys[..|keys| - 1]), keys[|keys| - 1])
  }

  /** Every stored element is one of the added keys. */
  lemma {:induction false} InsertAllFromKeys(matcher: Matcher, keys: seq<string>)
    ensures forall i :: 0 <= i < |InsertAll(matcher, keys)| ==> InsertAll(matcher, keys)[i] in keys
  {
    if keys != [] {
      var init := keys[..|keys| - 1];
      InsertAllFromKeys(matcher, init);
      var before := InsertAll(matcher, init);
      var after := InsertAll(matcher, keys);
      forall i | 0 <= i < |after| ensures after[i] in keys {
        if i < |before| {
          assert after[i] == before[i] && before[i] in init;
        } else {
          assert after[i] == keys[|keys| - 1];
        }
      }
    }
  }

  /** With a reflexive matcher, every added key matches some stored element. */
  lemma {:induction false} InsertAllCovers(matcher: Matcher, keys: seq<string>, k: nat)
    requires Reflexive(matcher) && k < |keys|
    ensures FirstMatch(matcher, InsertAll(matcher, keys), keys[k]).Some?
  {
    var init := keys[..|keys| - 1];
    var last := keys[|keys| - 1];
    var before := InsertAll(matcher, init);
    var after := InsertAll(matcher, keys);
    assert after == Insert(matcher, before, last);
    if k < |keys| - 1 {
      assert keys[k] == init[k];
      InsertAllCovers(matcher, init, k);
      if after != before {
        assert after == before + [last];
        FirstMatchExtend(matcher, before, [last], keys[k]);
      }
    } else if FirstMatch(matcher, before, last).None? {
      assert matcher(last, last);
      InsertCases(matcher, before, last);
      assert after[|before|] == last;
    }
  }

  /** `EmailSet`: a `Set<string>` whose `has` and `add` go through the matcher. */
  class EmailSet {
    const matcher: Matcher
    var elements: seq<string>

    ghost predicate Valid()
      reads this
    {
      Distinct(elements)
    }

    constructor (matcher: Matcher)
      ensures Valid() && this.matcher == matcher && elements == []
    {
      this.matcher := matcher;
      elements := [];
    }

    /** `has(key)`: some stored element matches `key`. */
    method Has(key: string) returns (found: bool)
      requires Valid()
      ensures found <==> exists i :: 0 <= i < |elements| && matcher(key, elements[i])
    {
      var i := 0;
      while i < |elements|
        invariant 0 <= i <= |elements|
        invariant forall j :: 0 <= j < i ==> !matcher(key, elements[j])
      {
        if matcher(key, elements[i]) {
          return true;
        }
        i := i + 1;
      }
      return false;
    }

    /** `add(key)`: a no-op when an element matches; otherwise `key` is stored. */
    method Add(key: string)
      requires Valid()
      modifies this
      ensures Valid()
      ensures elements == Insert(matcher, old(elements), key)
    {
      var i := 0;
      while i < |elements|
        invariant 0 <= i <= |elements|
        invariant forall j :: 0 <= j < i ==> !matcher(key, elements[j])
      {
        if matcher(key, elements[i]) {
          assert FirstMatch(matcher, elements, key) == Some(i);
          return;
        }
        i := i + 1;
      }
      if key !in elements {
        elements := elements + [key];
      }
    }
  }
}
