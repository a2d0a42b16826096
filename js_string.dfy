/** The few JavaScript string operations the trust-bundle builder relies on:
    `split` on a one-character separator, `join`, `startsWith` and `includes`. */
module JsString {

  /** `parts.join(sep)`. */
  function Join(parts: seq<string>, sep: string): string
  {
    if |parts| == 0 then ""
    else if |parts| == 1 then parts[0]
    else parts[0] + sep + Join(parts[1..], sep)
  }

  /** `s.startsWith(prefix)`. */
  predicate StartsWith(s: string, prefix: string)
  {
    |prefix| <= |s| && s[..|prefix|] == prefix
  }

  /** `s` ends with `suffix`: how a PEM text is recognised by its footer line. */
  predicate EndsWith(s: string, suffix: string)
  {
    |suffix| <= |s| && s[|s| - |suffix|..] == suffix
  }

  /** `needle` occurs in `s` starting at position `i`. */
  predicate OccursAt(s: string, needle: string, i: int)
  {
    0 <= i && i + |needle| <= |s| && s[i..i + |needle|] == needle
  }

  /** `s.includes(needle)`: true exactly when `needle` occurs somewhere in `s`. */
  function Includes(s: string, needle: string): (r: bool)
    ensures r <==> exists i :: OccursAt(s, needle, i)
    decreases |s|
  {
    if StartsWith(s, needle) then
      assert OccursAt(s, needle, 0);
      true
    else if |s| == 0 then
      false
    else
      var r := Includes(s[1..], needle);
      if r then
        var i :| OccursAt(s[1..], needle, i);
        assert OccursAt(s, needle, i + 1);
        true
      else
        assert forall i :: OccursAt(s, needle, i) ==> OccursAt(s[1..], needle, i - 1) by {
          forall i | OccursAt(s, needle, i)
            ensures OccursAt(s[1..], needle, i - 1)
          {
            assert i != 0;
            assert s[1..][i - 1..i - 1 + |needle|] == s[i..i + |needle|];
          }
        }
        false
  }

  /** `s.split([sep])`: the pieces of `s` between occurrences of `sep`. The pieces
      never contain `sep` and joining them with `sep` gives back `s`; there is
      always at least one piece (`"".split("\n")` is `[""]`). */
  function Split(s: string, sep: char): (parts: seq<string>)
    ensures |parts| >= 1
    ensures forall k :: 0 <= k < |parts| ==> sep !in parts[k]
    ensures Join(parts, [sep]) == s
    decreases |s|
  {
    if |s| == 0 then [""]
    else
      var rest := Split(s[1..], sep);
      if s[0] == sep then
        [""] + rest
      else
        JoinConsFirst(s[0], rest, [sep]);
        [[s[0]] + rest[0]] + rest[1..]
  }

  /** Putting a character in front of the first part puts it in front of the join. */
  lemma JoinConsFirst(c: char, parts: seq<string>, sep: string)
    requires |parts| >= 1
    ensures Join([[c] + parts[0]] + parts[1..], sep) == [c] + Join(parts, sep)
  {

  }

  /** Splitting a join recovers the parts, provided none of them holds the separator:
      the converse of the round trip in `Split`'s contract. */
  lemma {:induction false} SplitJoin(parts: seq<string>, sep: char)
    requires |parts| >= 1
    requires forall k :: 0 <= k < |parts| ==> sep !in parts[k]
    ensures Split(Join(parts, [sep]), sep) == parts
    decreases |Join(parts, [sep])|, |parts[0]|
  {
    var s := Join(parts, [sep]);
    if parts[0] == "" {
      if |parts| == 1 {
        assert s == "";
      } else {
        assert s == [sep] + Join(parts[1..], [sep]);
        assert s[1..] == Join(parts[1..], [sep]);
        SplitJoin(parts[1..], sep);
        assert parts == [""] + parts[1..];
      }
    } else {
      var c := parts[0][0];
      var tail := [parts[0][1..]] + parts[1..];
      assert tail[1..] == parts[1..];
      assert [c] + tail[0] == parts[0];
      assert [[c] + tail[0]] + tail[1..] == parts;
      JoinConsFirst(c, tail, [sep]);
      assert s == [c] + Join(tail, [sep]);
      assert s[1..] == Join(tail, [sep]);
      assert c != sep by { assert c == parts[0][0]; }
      forall k | 0 <= k < |tail| ensures sep !in tail[k] {
        if k == 0 {
          assert sep !in parts[0];
        } else {
          assert tail[k] == parts[k];
        }
      }
      SplitJoin(tail, sep);
    }
  }
}
