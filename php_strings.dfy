/** The few PHP string primitives the image object relies on, with the PHP
    behaviour at their edges written out. */
module PhpStrings {

  /** PHP `null` or a value. */
  datatype Option<T> = None | Some(value: T) {
    function GetOr(default: T): T {
      match this
      case Some(v) => v
      case None => default
    }
  }

  /** `strrpos($s, $c)`: the position of the last occurrence of `c`, or
      `false` (here `None`) when `c` does not occur. */
  function LastIndexOf(s: string, c: char): (r: Option<nat>)
    ensures r.None? <==> c !in s
    ensures r.Some? ==> r.value < |s| && s[r.value] == c && c !in s[r.value + 1..]
  {
    if |s| == 0 then None
    else if s[|s| - 1] == c then Some(|s| - 1)
    else
      var r := LastIndexOf(s[..|s| - 1], c);
      assert s == s[..|s| - 1] + [s[|s| - 1]];
      if r.Some? then
        assert s[r.value + 1..] == s[..|s| - 1][r.value + 1..] + [s[|s| - 1]];
        r
      else r
  }

  /** `substr($s, $start)` for a non-negative start. A start at or past the
      end yields `false` (older PHP) or `""`; both read as `""` once
      concatenated, which is the only way the image object uses it. */
  function Substr(s: string, start: nat): (r: string)
    ensures start <= |s| ==> s == s[..start] + r
    ensures start >= |s| ==> r == ""
  {
    if start < |s| then s[start..] else ""
  }

  /** `!$value` for a string-or-null: PHP treats null, `""` and `"0"` as false. */
  predicate Falsy(p: Option<string>) {
    p.None? || p.value == "" || p.value == "0"
  }

  predicate EndsWith(s: string, suffix: string) {
    |suffix| <= |s| && s[|s| - |suffix|..] == suffix
  }

  predicate StartsWith(s: string, prefix: string) {
    |prefix| <= |s| && s[..|prefix|] == prefix
  }

  /** The last occurrence is determined by its three defining facts. */
  lemma LastIndexOfIs(s: string, c: char, i: nat)
    requires i < |s| && s[i] == c && c !in s[i + 1..]
    ensures LastIndexOf(s, c) == Some(i)
  {
    assert c in s;
  }

  /** Appending text that does not contain `c` leaves the last `c` where it was. */
  lemma {:induction false} LastIndexOfAppend(s: string, t: string, c: char)
    requires c in s && c !in t
    ensures LastIndexOf(s + t, c) == LastIndexOf(s, c)
  {
    var i := LastIndexOf(s, c).value;
    assert (s + t)[i] == c;
    assert (s + t)[i + 1..] == s[i + 1..] + t;
    LastIndexOfIs(s + t, c, i);
  }
}
