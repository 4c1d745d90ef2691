/** The IDs a graph may use, and the regular expression that the source checks them with. */
module SafeIds {

  // ---------- regular expressions ----------

  datatype CharRange = CharRange(first: char, last: char)

  datatype Pattern = OneOf(ranges: seq<CharRange>) | Then(before: Pattern, after: Pattern) | Star(body: Pattern)

  ghost predicate InRanges(c: char, ranges: seq<CharRange>) {
    exists i :: 0 <= i < |ranges| && ranges[i].first <= c <= ranges[i].last
  }

  /** The pattern matches the whole text. */
  ghost predicate Matches(p: Pattern, text: string)
    decreases p, |text|
  {
    match p
    case OneOf(ranges) => |text| == 1 && InRanges(text[0], ranges)
    case Then(before, after) => exists m :: 0 <= m <= |text| && Matches(before, text[..m]) && Matches(after, text[m..])
    case Star(body) =>
      text == "" || exists m :: 0 < m <= |text| && Matches(body, text[..m]) && Matches(p, text[m..])
  }

  /** `[a-z]` */
  const LOWER: seq<CharRange> := [CharRange('a', 'z')]

  /** `[a-z0-9_.-]` */
  const ID_CHARS: seq<CharRange> :=
    [CharRange('a', 'z'), CharRange('0', '9'), CharRange('_', '_'), CharRange('.', '.'), CharRange('-', '-')]

  /** `[a-z][a-z0-9_.-]*` */
  const ID_PATTERN: Pattern := Then(OneOf(LOWER), Star(OneOf(ID_CHARS)))

  // ---------- the check ----------

  predicate IsLower(c: char) {
    'a' <= c <= 'z'
  }

  predicate IsIdChar(c: char) {
    IsLower(c) || '0' <= c <= '9' || c in {'_', '.', '-'}
  }

  /** A lower-case letter, then letters, digits, underscores, dots and hyphens. */
  predicate IsSafeId(text: string) {
    text != "" && IsLower(text[0]) && forall i :: 0 < i < |text| ==> IsIdChar(text[i])
  }

  lemma CharsInRanges(c: char)
    ensures InRanges(c, LOWER) <==> IsLower(c)
    ensures InRanges(c, ID_CHARS) <==> IsIdChar(c)
  {
    assert LOWER[0] == CharRange('a', 'z');
    assert ID_CHARS[0] == CharRange('a', 'z') && ID_CHARS[1] == CharRange('0', '9');
    assert ID_CHARS[2] == CharRange('_', '_') && ID_CHARS[3] == CharRange('.', '.') &&
           ID_CHARS[4] == CharRange('-', '-');
  }

  /** Repeating a class of characters matches the texts made of them. */
  lemma {:induction false} StarOfClass(ranges: seq<CharRange>, text: string)
    ensures Matches(Star(OneOf(ranges)), text) <==> forall i :: 0 <= i < |text| ==> InRanges(text[i], ranges)
    decreases |text|
  {
    if text != "" {
      StarOfClass(ranges, text[1..]);
      assert text[..1][0] == text[0];
      if Matches(Star(OneOf(ranges)), text) {
        var m :| 0 < m <= |text| && Matches(OneOf(ranges), text[..m]) && Matches(Star(OneOf(ranges)), text[m..]);
        assert m == 1;
        forall i | 0 <= i < |text| ensures InRanges(text[i], ranges) {
          assert i > 0 ==> text[1..][i - 1] == text[i];
        }
      }
      if forall i :: 0 <= i < |text| ==> InRanges(text[i], ranges) {
        assert Matches(OneOf(ranges), text[..1]) && Matches(Star(OneOf(ranges)), text[1..]);
      }
    }
  }

  /** The check accepts exactly the texts that the regular expression matches in full. */
  lemma SafeIdIsPattern(text: string)
    ensures IsSafeId(text) <==> Matches(ID_PATTERN, text)
  {
    forall c ensures (InRanges(c, LOWER) <==> IsLower(c)) && (InRanges(c, ID_CHARS) <==> IsIdChar(c)) {
      CharsInRanges(c);
    }
    if text != "" {
      StarOfClass(ID_CHARS, text[1..]);
      assert text[..1][0] == text[0];
      forall i | 0 < i < |text| ensures text[1..][i - 1] == text[i] {
      }
      if IsSafeId(text) {
        assert Matches(OneOf(LOWER), text[..1]) && Matches(Star(OneOf(ID_CHARS)), text[1..]);
      }
    }
    if Matches(ID_PATTERN, text) {
      var m :| 0 <= m <= |text| && Matches(OneOf(LOWER), text[..m]) && Matches(Star(OneOf(ID_CHARS)), text[m..]);
      assert m == 1;
      forall i | 0 < i < |text| ensures IsIdChar(text[i]) {
        assert InRanges(text[1..][i - 1], ID_CHARS);
      }
    }
  }
}
