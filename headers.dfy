/**
 * Header normalisation at the start of the webhook handler: a `for...in` loop
 * that, for every header name, stores the same value again under the
 * lowercased name, so that later lookups by lowercase name succeed whatever
 * capitalisation the sender used (field names are case-insensitive, RFC 9110
 * section 5.1).
 */
module Headers {
  import opened Wrappers

  /** Header fields as received: name, spelled as the sender spelled it, to value. */
  type HeaderMap = map<string, string>

  /** ASCII case folding of one character; header names are ASCII tokens. */
  function LowerChar(c: char): char {
    if 'A' <= c <= 'Z' then (c as int - 'A' as int + 'a' as int) as char else c
  }

  /** The lowercase spelling of a name, as `toLowerCase` gives it for ASCII. */
  function Lower(s: string): (r: string)
    ensures |r| == |s|
    ensures forall i {:trigger r[i]} :: 0 <= i < |s| ==>
              if 'A' <= s[i] <= 'Z' then r[i] as int == s[i] as int + 32 else r[i] == s[i]
  {
    seq(|s|, i requires 0 <= i < |s| => LowerChar(s[i]))
  }

  /** Lowercasing a lowercase name changes nothing. */
  lemma LowerIdempotent(s: string)
    ensures Lower(Lower(s)) == Lower(s)
  {
  }

  /** `key` is a spelling of `name` other than `name` itself, i.e. writing
      `headers[key.toLowerCase()]` overwrites the entry for `name`. */
  predicate IsAlias(key: string, name: string) {
    key != name && Lower(key) == name
  }

  /** Only a lowercase name has aliases. */
  lemma AliasTargetIsLowercase(key: string, name: string)
    requires IsAlias(key, name)
    ensures Lower(name) == name
  {
    LowerIdempotent(key);
  }

  /** The position of the last alias of `name` in the enumeration order, if any. */
  function LastAliasIndex(order: seq<string>, name: string): (r: Option<nat>)
    ensures r.Some? ==> r.value < |order| && IsAlias(order[r.value], name)
    ensures r.Some? ==> forall j :: r.value < j < |order| ==> !IsAlias(order[j], name)
    ensures r.None? ==> forall k :: k in order ==> !IsAlias(k, name)
  {
    if order == [] then None
    else if IsAlias(order[|order| - 1], name) then Some(|order| - 1)
    else
      LastAliasIndex(order[..|order| - 1], name)
  }

  /** Enumerating one more key either makes it the last alias or changes nothing. */
  lemma LastAliasIndexSnoc(order: seq<string>, key: string, name: string)
    ensures LastAliasIndex(order + [key], name)
         == if IsAlias(key, name) then Some(|order|) else LastAliasIndex(order, name)
  {
    assert (order + [key])[..|order|] == order;
  }

  /** Every name the loop writes to. */
  function LowerNames(order: seq<string>): set<string> {
    set k | k in order :: Lower(k)
  }

  /** What the loop leaves under `name`: the value of the last alias of
      `name` enumerated, or the entry's own value when it has no alias. */
  function Resolve(h: HeaderMap, order: seq<string>, name: string): string
    requires forall k :: k in order ==> k in h
    requires name in h || name in LowerNames(order)
  {
    match LastAliasIndex(order, name)
    case Some(i) => h[order[i]]
    case None =>
      h[name]
  }

  /** The headers after the lowercasing loop has visited the keys in `order`:
      every original entry is still there, every lowercased name is there too,
      and each name holds what `Resolve` says. */
  function Normalized(h: HeaderMap, order: seq<string>): HeaderMap
    requires forall k :: k in order ==> k in h
  {
    map name | name in h.Keys + LowerNames(order) :: Resolve(h, order, name)
  }

  /** A name that is not lowercase is never overwritten. */
  lemma MixedCaseHasNoAlias(order: seq<string>, name: string)
    requires Lower(name) != name
    ensures LastAliasIndex(order, name) == None
  {
    var r := LastAliasIndex(order, name);
    if r.Some? {
      AliasTargetIsLowercase(order[r.value], name);
    }
  }

  /** Before the loop has visited any key, the headers are as received. */
  lemma {:induction false} NormalizedEmpty(h: HeaderMap)
    ensures Normalized(h, []) == h
  {
    var n := Normalized(h, []);
    assert n.Keys == h.Keys;
    forall name | name in h
      ensures n[name] == h[name]
    {
      assert LastAliasIndex([], name) == None;
    }
  }

  /** What one more enumerated key does to the value left under `name`. */
  lemma ResolveSnoc(h: HeaderMap, order: seq<string>, key: string, name: string)
    requires forall k :: k in order ==> k in h
    requires key in h
    requires name in h || name in LowerNames(order + [key])
    ensures key in h || key in LowerNames(order)
    ensures Resolve(h, order + [key], name)
         == if name == Lower(key) then Resolve(h, order, key) else Resolve(h, order, name)
  {
    LastAliasIndexSnoc(order, key, name);
    assert (order + [key])[..|order|] == order;
    if name == Lower(key) && key != name {
      MixedCaseHasNoAlias(order, key);
    } else if name != Lower(key) {
      assert name in h || name in LowerNames(order);
    }
  }

  /** One iteration of the loop, `headers[key.toLowerCase()] = headers[key]`,
      takes the headers from `Normalized(h, order)` to `Normalized(h, order + [key])`. */
  lemma {:induction false} NormalizedStep(h: HeaderMap, order: seq<string>, key: string)
    requires forall k :: k in order ==> k in h
    requires key in h
    ensures key in Normalized(h, order)
    ensures Normalized(h, order + [key])
         == Normalized(h, order)[Lower(key) := Normalized(h, order)[key]]
  {
    var order' := order + [key];
    var before := Normalized(h, order);
    var after := Normalized(h, order');
    var expected := before[Lower(key) := before[key]];
    assert LowerNames(order') == LowerNames(order) + {Lower(key)};
    assert after.Keys == expected.Keys;
    forall name | name in after
      ensures after[name] == expected[name]
    {
      ResolveSnoc(h, order, key, name);
    }
  }

  /** The loop invariant of `LowercaseKeys` survives visiting `order[i]`. */
  lemma VisitNext(headers: HeaderMap, order: seq<string>, i: nat, h: HeaderMap)
    requires forall k :: k in order ==> k in headers
    requires i < |order|
    requires h == Normalized(headers, order[..i])
    ensures order[i] in h
    ensures h[Lower(order[i]) := h[order[i]]] == Normalized(headers, order[..i + 1])
  {
    assert order[..i + 1] == order[..i] + [order[i]];
    NormalizedStep(headers, order[..i], order[i]);
  }

  /** The loop of the handler: for each key, in enumeration order, store its
      current value under its lowercase spelling. `order` lists the keys that
      `for...in` enumerates, which are exactly the keys present. */
  method LowercaseKeys(headers: HeaderMap, order: seq<string>) returns (h: HeaderMap)
    requires forall k :: k in order <==> k in headers
    ensures h == Normalized(headers, order)
  {
    h := headers;
    NormalizedEmpty(headers);
    var i := 0;
    while i < |order|
      invariant 0 <= i <= |order|
      invariant h == Normalized(headers, order[..i])
    {
      var key := order[i];
      VisitNext(headers, order, i, h);
      h := h[Lower(key) := h[key]];
      i := i + 1;
    }
    assert order[..|order|] == order;
  }

  /** No header is removed, and every name is also present in lowercase. */
  lemma NothingRemoved(h: HeaderMap, order: seq<string>)
    requires forall k :: k in order <==> k in h
    ensures h.Keys <= Normalized(h, order).Keys
    ensures forall k :: k in h ==> Lower(k) in Normalized(h, order)
  {
  }

  /** Every value after the loop was sent under some spelling of the same name. */
  lemma {:induction false} ValueFromSameName(h: HeaderMap, order: seq<string>, name: string)
    requires forall k :: k in order ==> k in h
    requires name in Normalized(h, order)
    ensures exists k :: k in h && Lower(k) == Lower(name) && Normalized(h, order)[name] == h[k]
  {
    match LastAliasIndex(order, name)
    case Some(i) =>
      AliasTargetIsLowercase(order[i], name);
      assert Lower(order[i]) == Lower(name);
    case None =>
  }

  /** A name that is not lowercase keeps its own value. */
  lemma MixedCaseUnchanged(h: HeaderMap, order: seq<string>, name: string)
    requires forall k :: k in order ==> k in h
    requires name in h && Lower(name) != name
    ensures Normalized(h, order)[name] == h[name]
  {
    MixedCaseHasNoAlias(order, name);
  }

  /** When a header is sent under one spelling only, its value is found under
      the lowercase name. */
  lemma {:induction false} SingleSpellingFound(h: HeaderMap, order: seq<string>, key: string)
    requires forall k :: k in order <==> k in h
    requires key in h
    requires forall k :: k in h && Lower(k) == Lower(key) ==> k == key
    ensures Lower(key) in Normalized(h, order)
    ensures Normalized(h, order)[Lower(key)] == h[key]
  {
    var name := Lower(key);
    LowerIdempotent(key);
    assert name in LowerNames(order);
    match LastAliasIndex(order, name)
    case Some(i) =>
      assert Lower(order[i]) == name;
    case None =>
      if key != name {
        assert IsAlias(key, name);
      }
  }

  /** A signature header spelled `X-Hub-Signature` is found under `x-hub-signature`. */
  lemma CapitalisedSignatureFound(v: string)
    ensures "x-hub-signature" in Normalized(map["X-Hub-Signature" := v], ["X-Hub-Signature"])
    ensures Normalized(map["X-Hub-Signature" := v], ["X-Hub-Signature"])["x-hub-signature"] == v
  {
    assert Lower("X-Hub-Signature") == "x-hub-signature";
    SingleSpellingFound(map["X-Hub-Signature" := v], ["X-Hub-Signature"], "X-Hub-Signature");
  }

  /** Appending keys that are already lowercase to the enumeration order does
      not change any name's last alias. */
  lemma {:induction false} LowercaseSuffixAddsNoAlias(order: seq<string>, added: seq<string>, name: string)
    requires forall k :: k in added ==> Lower(k) == k
    ensures LastAliasIndex(order + added, name) == LastAliasIndex(order, name)
  {
    if added == [] {
      assert order + added == order;
    } else {
      var init, last := added[..|added| - 1], added[|added| - 1];
      assert order + added == (order + init) + [last];
      assert added == init + [last];
      LastAliasIndexSnoc(order + init, last, name);
      LowercaseSuffixAddsNoAlias(order, init, name);
    }
  }

  /** Running the loop a second time changes nothing. The second `for...in`
      enumerates the original keys in their first order and then the keys the
      first run added, which are all lowercase. */
  lemma {:induction false} NormalizedIdempotent(h: HeaderMap, order: seq<string>, added: seq<string>)
    requires forall k :: k in order <==> k in h
    requires forall k :: k in order + added <==> k in Normalized(h, order)
    requires forall k :: k in added ==> Lower(k) == k
    ensures Normalized(Normalized(h, order), order + added) == Normalized(h, order)
  {
    var n := Normalized(h, order);
    var again := Normalized(n, order + added);
    assert LowerNames(order + added) <= n.Keys;
    assert again.Keys == n.Keys;
    forall name | name in n
      ensures again[name] == n[name]
    {
      LowercaseSuffixAddsNoAlias(order, added, name);
      match LastAliasIndex(order, name)
      case Some(i) =>
        AliasTargetIsLowercase(order[i], name);
        LowerIdempotent(order[i]);
        MixedCaseUnchanged(h, order, order[i]);
      case None =>
    }
  }
}
