/**
  Naming helpers of `HALAnalyzer`: the component-instance group key of a
  dotted HAL pin name (`groupname`), the DOT-safe form of an identifier
  (`todotname`), and a pin's short name, the last dotted segment.
 */
module HalNames {
  import opened PyStrings

  /** `groupname`: the first two dotted segments when the name has more
      than two, otherwise the first segment.

      The source guards the two-segment key with `int(pstr[1] > -1)`. That
      compares a `str` with an `int`, which Python 2 always answers with
      True (every number orders before every string), so the second segment
      is never checked to be a number and the `except` branch never runs.
      The model keeps that behaviour: no test on the second segment. */
  function GroupName(pinName: string): string
  {
    var parts := Split(pinName, '.');
    if |parts| > 2 then parts[0] + "." + parts[1] else parts[0]
  }

  /** The group key is a prefix of the pin name that ends where the name
      ends or at a dot, and holds at most one dot. */
  lemma {:induction false} GroupNameIsPrefix(pinName: string)
    ensures var g := GroupName(pinName);
      && g <= pinName
      && (g == pinName || pinName[|g|] == '.')
      && Occurrences(g, '.') <= 1
  {
    var parts := Split(pinName, '.');
    JoinSplit(pinName, '.');
    if |parts| > 2 {
      JoinPrefix(parts, '.', 2);
      assert parts[..2][1..] == [parts[1]];
      OccurrencesConcat(parts[0] + ".", parts[1], '.');
      OccurrencesConcat(parts[0], ".", '.');
    } else {
      JoinPrefix(parts, '.', 1);
      assert parts[..1] == [parts[0]];
    }
  }

  /** A name built from dot-free segments is grouped by its first segment
      when it has one or two, and by the first two, whatever the second one
      holds, when it has more. */
  lemma {:induction false} GroupNameOfSegments(parts: seq<string>)
    requires |parts| >= 1
    requires forall i :: 0 <= i < |parts| ==> '.' !in parts[i]
    ensures GroupName(Join(parts, '.')) == if |parts| > 2 then parts[0] + "." + parts[1] else parts[0]
  {
    SplitJoin(parts, '.');
  }

  /** The three-segment case: `a.b.c` is grouped under `a.b`, whatever
      `b` holds. */
  lemma {:induction false} GroupNameThreeSegments(a: string, b: string, c: string)
    requires '.' !in a && '.' !in b && '.' !in c
    ensures GroupName(a + "." + b + "." + c) == a + "." + b
  {
    var parts := [a, b, c];
    assert parts[1..] == [b, c] && parts[1..][1..] == [c];
    assert Join(parts[1..], '.') == b + "." + c;
    assert Join(parts, '.') == a + "." + (b + "." + c) == a + "." + b + "." + c;
    GroupNameOfSegments(parts);
  }

  /** The three-segment case of the short name: `a.b.c` has short name
      `c`. */
  lemma {:induction false} LastSegmentThreeSegments(a: string, b: string, c: string)
    requires '.' !in a && '.' !in b && '.' !in c
    ensures LastSegment(a + "." + b + "." + c) == c
  {
    var parts := [a, b, c];
    assert parts[1..] == [b, c] && parts[1..][1..] == [c];
    assert Join(parts[1..], '.') == b + "." + c;
    assert Join(parts, '.') == a + "." + (b + "." + c) == a + "." + b + "." + c;
    LastSegmentOfSegments(parts);
  }

  /** `todotname`: `name.replace(".", "_").replace("-", "_")`. */
  function ToDotName(name: string): (d: string)
    ensures |d| == |name|
    ensures forall i :: 0 <= i < |name| ==>
      d[i] == if name[i] == '.' || name[i] == '-' then '_' else name[i]
    ensures '.' !in d && '-' !in d
  {
    Replace(Replace(name, '.', '_'), '-', '_')
  }

  /** Applying `todotname` twice is the same as applying it once. */
  lemma {:induction false} ToDotNameIdempotent(name: string)
    ensures ToDotName(ToDotName(name)) == ToDotName(name)
  {
  }

  /** `todotname` is not injective: these three names share one DOT name. */
  lemma {:induction false} ToDotNameCollision()
    ensures ToDotName("a.b") == ToDotName("a-b") == ToDotName("a_b") == "a_b"
  {
  }

  /** `name.split('.')[-1]`: the pin's short name. */
  function LastSegment(name: string): string
  {
    var parts := Split(name, '.');
    parts[|parts| - 1]
  }

  /** The short name holds no dot and ends the name: it is either the whole
      name or follows the name's last dot. */
  lemma {:induction false} LastSegmentIsSuffix(name: string)
    ensures var r := LastSegment(name);
      && '.' !in r
      && |r| <= |name| && name[|name| - |r|..] == r
      && (r == name || name[|name| - |r| - 1] == '.')
  {
    var parts := Split(name, '.');
    JoinSplit(name, '.');
    JoinSuffix(parts, '.');
    assert |parts| == 1 ==> Join(parts, '.') == parts[0];
  }

  /** The short name of a name built from dot-free segments is its last
      segment. */
  lemma {:induction false} LastSegmentOfSegments(parts: seq<string>)
    requires |parts| >= 1
    requires forall i :: 0 <= i < |parts| ==> '.' !in parts[i]
    ensures LastSegment(Join(parts, '.')) == parts[|parts| - 1]
  {
    var name := Join(parts, '.');
    SplitJoin(parts, '.');
    assert Split(name, '.') == parts;
  }
}
