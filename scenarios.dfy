/**
  Concrete scenarios for the selector, on three patterns whose full-match
  behaviour under java.util.regex is simple enough to write down:
  `event([0-9]+)`, the pattern the selector's documentation uses,
  `(a)(b)(c)`, and `.*`.
 */
module RegexSelectorScenarios {
  import opened Wrappers
  import opened Decimal
  import opened Regex
  import opened RegexSelectors

  /** `event([0-9]+)`: "event" followed by one or more digits, captured as group 1. */
  function EventPattern(): CompiledPattern {
    Pattern("event([0-9]+)", 1, s =>
      if |s| > 5 && s[..5] == "event" && IsDigits(s[5..]) then Some([Some(s), Some(s[5..])]) else None)
  }

  /** `(a)(b)(c)`: matches only "abc", one letter per group. */
  function ThreeGroupPattern(): CompiledPattern {
    Pattern("(a)(b)(c)", 3, s =>
      if s == "abc" then Some([Some(s), Some("a"), Some("b"), Some("c")]) else None)
  }

  /**
    The characters java.util.regex treats as line terminators when the
    DOTALL flag is off: '\n', '\r', U+0085, U+2028 and U+2029.
   */
  predicate IsLineTerminator(c: char) {
    c == '\n' || c == '\r' || c == '\U{0085}' || c == '\U{2028}' || c == '\U{2029}'
  }

  /**
    `.*` with the default flags: `.` matches any character but a line
    terminator, so the full match succeeds exactly on strings without one.
    No capturing group.
   */
  function AnyPattern(): CompiledPattern {
    Pattern(".*", 0, s =>
      if forall k :: 0 <= k < |s| ==> !IsLineTerminator(s[k]) then Some([Some(s)]) else None)
  }

  /** "event23" matches, and its digits become header `group1`. */
  lemma EventKeyResolves()
    ensures FullyMatches(EventPattern(), "event23")
    ensures Resolve(EventPattern(), StrKey("event23")) == Success(Some(map["group1" := Some("23")]))
  {
    var p := EventPattern();
    var captures := [Some("event23"), Some("23")];
    assert "event23"[..5] == "event" && "event23"[5..] == "23";
    assert p.fullMatch("event23") == Some(captures);
    assert GroupName(1) == "group1";
    GroupHeadersShape(captures, 1);
    assert GroupNames(1) == {"group1"};
    var headers := GroupHeaders(captures, 1);
    assert headers.Keys == {"group1"} && headers["group1"] == Some("23");
    assert headers == map["group1" := Some("23")];
  }

  /** "eventX" and "prefix-event9" do not match, so the resolver returns `null`. */
  lemma NonEventKeysDoNotResolve()
    ensures !FullyMatches(EventPattern(), "eventX")
    ensures !FullyMatches(EventPattern(), "prefix-event9")
    ensures Resolve(EventPattern(), StrKey("eventX")) == Success(None)
    ensures Resolve(EventPattern(), StrKey("prefix-event9")) == Success(None)
  {
    var p := EventPattern();
    assert "eventX"[5..] == "X" && "X"[0] == 'X';
    assert p.fullMatch("eventX") == None;
    assert "prefix-event9"[..5] == "prefi";
    assert p.fullMatch("prefix-event9") == None;
  }

  /** "abc" under `(a)(b)(c)` fills the map with three groups, one `put` each. */
  lemma ThreeGroupKeyResolves()
    ensures FullyMatches(ThreeGroupPattern(), "abc")
    ensures Resolve(ThreeGroupPattern(), StrKey("abc"))
      == Success(Some(map["group1" := Some("a"), "group2" := Some("b"), "group3" := Some("c")]))
  {
    var captures := [Some("abc"), Some("a"), Some("b"), Some("c")];
    assert ThreeGroupPattern().fullMatch("abc") == Some(captures);
    ThreeGroupHeaders(captures);
  }

  /** The headers the loop builds from the captures of "abc", one group at a time. */
  lemma ThreeGroupHeaders(captures: seq<Option<string>>)
    requires captures == [Some("abc"), Some("a"), Some("b"), Some("c")]
    ensures GroupHeaders(captures, 3)
      == map["group1" := Some("a"), "group2" := Some("b"), "group3" := Some("c")]
  {
    assert GroupHeaders(captures, 0) == map[] by {
      GroupHeadersKeys(captures, 0);
      assert GroupNames(0) == {};
    }
    FirstGroupNames();
    GroupHeadersExtend(captures, 0);
    GroupHeadersExtend(captures, 1);
    GroupHeadersExtend(captures, 2);
  }

  /** The header names of the first three groups, written out. */
  lemma FirstGroupNames()
    ensures GroupName(1) == "group1" && GroupName(2) == "group2" && GroupName(3) == "group3"
  {
  }

  /** `.*` does not match a key that spans two lines. */
  lemma AnyPatternRejectsLineTerminator()
    ensures !FullyMatches(AnyPattern(), "a\nb")
    ensures Resolve(AnyPattern(), StrKey("a\nb")) == Success(None)
  {
    assert IsLineTerminator("a\nb"[1]);
  }

  /**
    A non-`String` key whose `toString()` is "12345" is rejected by `matches`
    under `.*`, but the resolver still returns the (empty) headers of a match.
   */
  lemma NumericKeyResolvesUnderAnyPattern(sel: RegexSelector)
    requires sel.pattern == AnyPattern()
    ensures !sel.Matches(OtherKey("12345"))
    ensures Resolve(sel.pattern, OtherKey("12345")) == Success(Some(map[]))
  {
    assert AnyPattern().fullMatch("12345") == Some([Some("12345")]);
    ZeroGroupsGiveEmptyHeaders(sel.pattern, OtherKey("12345"));
  }
}
