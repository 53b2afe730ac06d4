/**
  The regex selector of the event bus: a routing predicate over keys that
  owns one compiled pattern, and a header resolver that turns the capturing
  groups of a full match into the headers `group1`..`groupN`.
 */
module RegexSelectors {
  import opened Wrappers
  import opened Decimal
  import opened Regex

  /**
    A routing key as the bus publishes it. A `String` key is `StrKey`; any
    other object is `OtherKey`, carrying the string its `toString()` returns
    (a `toString()` that throws or returns `null` is not represented); the
    `null` reference is `NullKey`.
   */
  datatype Key = StrKey(s: string) | OtherKey(text: string) | NullKey

  /** The exception the header resolver can throw. */
  datatype Exception = NullPointerException

  /** Header name to captured text; `None` for a group that did not participate. */
  type Headers = map<string, Option<string>>

  /**
    `key.toString()`, defined for every non-null key: a `String` is its own
    text, any other object renders as its own `toString()` says.
   */
  function ToText(key: Key): (t: string)
    requires !key.NullKey?
    ensures key.StrKey? ==> t == key.s
    ensures key.OtherKey? ==> t == key.text
  {
    match key
    case StrKey(s) => s
    case OtherKey(t) => t
  }

  /**
    The header name of group `i`, `"group" + i`: the prefix "group" followed
    by a digit string, without a leading zero for any group `i >= 1`. That
    the digits are the decimal form of `i` is `GroupNameDigits`.
   */
  function GroupName(i: nat): (name: string)
    ensures |name| > 5 && name[..5] == "group"
    ensures IsDigits(name[5..])
    ensures i >= 1 ==> name[5] != '0'
  {
    var name := "group" + NatToDecimal(i);
    assert name[5..] == NatToDecimal(i);
    name
  }

  /** The digits after "group" are the decimal rendering of `i`, and read back as `i`. */
  lemma GroupNameDigits(i: nat)
    ensures GroupName(i)[5..] == NatToDecimal(i)
    ensures ParseDecimal(GroupName(i)[5..]) == i
  {
    assert GroupName(i)[5..] == NatToDecimal(i);
    ParseNatToDecimal(i);
  }

  /** Distinct groups get distinct header names. */
  lemma GroupNameInjective(i: nat, j: nat)
    ensures GroupName(i) == GroupName(j) ==> i == j
  {
    if GroupName(i) == GroupName(j) {
      assert NatToDecimal(i) == GroupName(i)[5..];
      assert NatToDecimal(j) == GroupName(j)[5..];
      NatToDecimalInjective(i, j);
    }
  }

  /** `GroupNameInjective` for all pairs of indices at once. */
  lemma AllGroupNamesInjective()
    ensures forall i: nat, j: nat :: GroupName(i) == GroupName(j) ==> i == j
  {
    forall i: nat, j: nat ensures GroupName(i) == GroupName(j) ==> i == j {
      GroupNameInjective(i, j);
    }
  }

  /** The header names a pattern with `n` groups produces: `group1`..`groupN`. */
  ghost function GroupNames(n: nat): (names: set<string>) {
    set i: nat | 1 <= i <= n :: GroupName(i)
  }

  /** There are exactly `n` of them: no two groups share a name. */
  lemma {:induction false} GroupNamesCount(n: nat)
    ensures |GroupNames(n)| == n
  {
    if n > 0 {
      GroupNamesCount(n - 1);
      GroupNamesGrow(n - 1);
    }
  }

  /**
    The reference definition of the headers of a match: group `i` bound to
    capture `i` for every `i` in 1..n. Capture 0, the whole match, is not used.
   */
  function GroupHeaders(captures: seq<Option<string>>, n: nat): (h: Headers)
    requires n < |captures|
  {
    AllGroupNamesInjective();
    map i: nat | 1 <= i <= n :: GroupName(i) := captures[i]
  }

  /**
    The headers of a match: exactly the names `group1`..`groupN`, so exactly
    `n` entries, each holding its own capture, and no `group0`.
   */
  lemma GroupHeadersShape(captures: seq<Option<string>>, n: nat)
    requires n < |captures|
    ensures GroupHeaders(captures, n).Keys == GroupNames(n)
    ensures |GroupHeaders(captures, n)| == n
    ensures forall i: nat :: 1 <= i <= n ==> GroupHeaders(captures, n)[GroupName(i)] == captures[i]
    ensures GroupName(0) !in GroupHeaders(captures, n)
  {
    var m := GroupHeaders(captures, n);
    GroupHeadersKeys(captures, n);
    GroupNamesCount(n);
    assert |m| == |m.Keys|;
    forall i: nat | 1 <= i <= n ensures m[GroupName(i)] == captures[i] {
      GroupHeadersAt(captures, n, i);
    }
  }

  /** The keys of the headers of `n` groups are the names `group1`..`groupN`. */
  lemma GroupHeadersKeys(captures: seq<Option<string>>, n: nat)
    requires n < |captures|
    ensures GroupHeaders(captures, n).Keys == GroupNames(n)
  {
  }

  /** Header `group` + `i` holds capture `i`, for each group `i` in 1..n. */
  lemma GroupHeadersAt(captures: seq<Option<string>>, n: nat, i: nat)
    requires n < |captures| && 1 <= i <= n
    ensures GroupName(i) in GroupHeaders(captures, n)
    ensures GroupHeaders(captures, n)[GroupName(i)] == captures[i]
  {
    AllGroupNamesInjective();
  }

  /**
    Adding group `n + 1` to the headers of the first `n` groups: the name is
    new (the `put` replaces nothing) and the result is the headers of the
    first `n + 1` groups.
   */
  lemma GroupHeadersExtend(captures: seq<Option<string>>, n: nat)
    requires n + 1 < |captures|
    ensures GroupName(n + 1) !in GroupHeaders(captures, n)
    ensures GroupHeaders(captures, n + 1) == GroupHeaders(captures, n)[GroupName(n + 1) := captures[n + 1]]
  {
    var small, big := GroupHeaders(captures, n), GroupHeaders(captures, n + 1);
    var grown := small[GroupName(n + 1) := captures[n + 1]];
    assert GroupName(n + 1) !in small && big.Keys == grown.Keys by {
      GroupHeadersKeys(captures, n);
      GroupHeadersKeys(captures, n + 1);
      GroupNamesGrow(n);
    }
    forall name | name in big ensures big[name] == grown[name] {
      GroupHeadersExtendAt(captures, n, name);
    }
  }

  /** One entry of `GroupHeadersExtend`: each header of n + 1 groups is the old one or the new group's. */
  lemma GroupHeadersExtendAt(captures: seq<Option<string>>, n: nat, name: string)
    requires n + 1 < |captures| && name in GroupHeaders(captures, n + 1)
    ensures name == GroupName(n + 1) ==> GroupHeaders(captures, n + 1)[name] == captures[n + 1]
    ensures name != GroupName(n + 1) ==>
      name in GroupHeaders(captures, n) && GroupHeaders(captures, n + 1)[name] == GroupHeaders(captures, n)[name]
  {
    var i: nat :| 1 <= i <= n + 1 && GroupName(i) == name;
    GroupHeadersAt(captures, n + 1, i);
    GroupNameInjective(i, n + 1);
    if i <= n {
      GroupHeadersAt(captures, n, i);
    }
  }

  /** The names of n + 1 groups are those of n groups plus one new name. */
  lemma GroupNamesGrow(n: nat)
    ensures GroupName(n + 1) !in GroupNames(n)
    ensures GroupNames(n + 1) == GroupNames(n) + {GroupName(n + 1)}
  {
    if GroupName(n + 1) in GroupNames(n) {
      var i: nat :| 1 <= i <= n && GroupName(i) == GroupName(n + 1);
      GroupNameInjective(i, n + 1);
      assert false;
    }
  }

  /**
    What the header resolver returns for `key` under pattern `p`: it throws
    on `null`; otherwise it returns `null` when the full match of `p` on
    `key.toString()` fails, and the group headers when it succeeds.
   */
  function Resolve(p: CompiledPattern, key: Key): (r: Result<Option<Headers>, Exception>)
    ensures r.Failure? <==> key.NullKey?
    ensures !key.NullKey? ==> (r == Success(None) <==> !FullyMatches(p, ToText(key)))
  {
    if key.NullKey? then Failure(NullPointerException)
    else
      var m := p.fullMatch(ToText(key));
      if m.None? then Success(None) else Success(Some(GroupHeaders(m.value, p.groupCount)))
  }

  /**
    The resolver's contract: it throws exactly on `null`, returns `null`
    exactly when the full match fails, and on a match returns a map whose keys
    are exactly `group1`..`groupN`, one entry per group, each bound to that
    group's capture (absent for a group that did not participate), without
    `group0`.
   */
  lemma ResolveContract(p: CompiledPattern, key: Key)
    ensures Resolve(p, key).Failure? <==> key.NullKey?
    ensures !key.NullKey? ==> (Resolve(p, key) == Success(None) <==> !FullyMatches(p, ToText(key)))
    ensures !key.NullKey? && FullyMatches(p, ToText(key)) ==>
      var m := Resolve(p, key);
      var captures := p.fullMatch(ToText(key)).value;
      && m.Success? && m.value.Some?
      && m.value.value.Keys == GroupNames(p.groupCount)
      && |m.value.value| == p.groupCount
      && (forall i: nat :: 1 <= i <= p.groupCount ==> m.value.value[GroupName(i)] == captures[i])
      && GroupName(0) !in m.value.value
  {
    if !key.NullKey? && FullyMatches(p, ToText(key)) {
      GroupHeadersShape(p.fullMatch(ToText(key)).value, p.groupCount);
    }
  }

  /**
    A pattern without capturing groups yields an empty map on a match, which
    is not the `null` of a failed match.
   */
  lemma ZeroGroupsGiveEmptyHeaders(p: CompiledPattern, key: Key)
    requires p.groupCount == 0 && !key.NullKey? && FullyMatches(p, ToText(key))
    ensures Resolve(p, key) == Success(Some(map[]))
    ensures Resolve(p, key) != Success(None)
  {
    GroupHeadersShape(p.fullMatch(ToText(key)).value, 0);
  }

  /**
    The header resolver: the anonymous `Function` the selector hands out. It
    reads the selector's pattern, which never changes.
   */
  class HeaderResolver {
    const pattern: CompiledPattern

    constructor (p: CompiledPattern)
      ensures pattern == p
    {
      pattern := p;
    }

    /**
      `apply(key)`: full-match `key.toString()`; `null` on failure, otherwise
      a new map filled with one `put` per group.
     */
    method Apply(key: Key) returns (r: Result<Option<Headers>, Exception>)
      ensures r == Resolve(pattern, key)
    {
      if key.NullKey? {
        return Failure(NullPointerException);
      }
      var m := pattern.fullMatch(ToText(key));
      if m.None? {
        return Success(None);
      }
      var groups := pattern.groupCount;
      var headers: Headers := map[];
      var i := 1;
      while i <= groups
        invariant 1 <= i <= groups + 1
        invariant headers == GroupHeaders(m.value, i - 1)
      {
        var name := "group" + NatToDecimal(i);
        var value := m.value[i];
        GroupHeadersExtend(m.value, i - 1);
        // the put never replaces an earlier group's entry
        assert name !in headers;
        headers := headers[name := value];
        i := i + 1;
      }
      return Success(Some(headers));
    }
  }

  /**
    The selector. Its pattern (`getObject()`) and its header resolver are set
    once, at construction, and never replaced.
   */
  class RegexSelector {
    const pattern: CompiledPattern
    const headerResolver: HeaderResolver

    /** The resolver works on this selector's own pattern. */
    ghost predicate Valid() {
      headerResolver.pattern == pattern
    }

    /** `new RegexSelector(regex)`, given the pattern `Pattern.compile(regex)` produced. */
    constructor (compiled: CompiledPattern)
      ensures pattern == compiled && Valid()
    {
      pattern := compiled;
      headerResolver := new HeaderResolver(compiled);
    }

    /** The static factory `regexSelector(regex)`: the same as the constructor. */
    static method Create(compiled: CompiledPattern) returns (s: RegexSelector)
      ensures fresh(s) && s.pattern == compiled && s.Valid()
    {
      s := new RegexSelector(compiled);
    }

    /**
      `matches(key)`: false for any key that is not a `String`, whatever the
      pattern; for a `String`, the full-match result of the pattern.
     */
    predicate Matches(key: Key): (b: bool)
      ensures !key.StrKey? ==> !b
      ensures key.StrKey? ==> (b <==> FullyMatches(pattern, key.s))
    {
      key.StrKey? && pattern.fullMatch(key.s).Some?
    }

    /** `getHeaderResolver()`: the same resolver object on every call. */
    method GetHeaderResolver() returns (r: HeaderResolver)
      requires Valid()
      ensures r == headerResolver && r.pattern == pattern
    {
      r := headerResolver;
    }
  }

  /**
    For a `String` key, `matches` holds exactly when the resolver returns a
    map rather than `null`.
   */
  lemma MatchesAgreesWithResolver(sel: RegexSelector, s: string)
    ensures sel.Matches(StrKey(s)) <==> Resolve(sel.pattern, StrKey(s)) != Success(None)
    ensures sel.Matches(StrKey(s)) <==> Resolve(sel.pattern, StrKey(s)).Success? && Resolve(sel.pattern, StrKey(s)).value.Some?
  {
    ResolveContract(sel.pattern, StrKey(s));
  }

  /**
    For a key that is not a `String` the agreement fails: `matches` is false,
    yet the resolver returns a map whenever the key's `toString()` fully
    matches, and throws on `null`.
   */
  lemma NonStringKeysDisagree(sel: RegexSelector, key: Key)
    requires !key.StrKey?
    ensures !sel.Matches(key)
    ensures key.OtherKey? ==> (Resolve(sel.pattern, key).value.Some? <==> FullyMatches(sel.pattern, key.text))
    ensures key.NullKey? ==> Resolve(sel.pattern, key) == Failure(NullPointerException)
  {
    ResolveContract(sel.pattern, key);
  }
}
