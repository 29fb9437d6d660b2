/** Character and string primitives of the Python runtime that the ingestion
    script relies on: `str.isspace` (which is also the `\s` class of the `re`
    module for text patterns), `str.strip`, `str.lower`, the `in` substring
    test and `str.join`. */
module Text {

  /** Python's `str.isspace`: the characters of Unicode bidirectional class
      WS, B or S, or of general category Zs. The `re` module's `\s` matches
      exactly these characters in a text pattern. */
  predicate IsSpace(c: char)
  {
    || ('\t' <= c <= '\r')                  // tab, line feed, vertical tab, form feed, carriage return
    || ('\U{001C}' <= c <= '\U{001F}')      // file, group, record and unit separators
    || c == ' '
    || c == '\U{0085}' || c == '\U{00A0}' || c == '\U{1680}'
    || ('\U{2000}' <= c <= '\U{200A}')
    || c == '\U{2028}' || c == '\U{2029}' || c == '\U{202F}' || c == '\U{205F}'
    || c == '\U{3000}'
  }

  predicate AllSpace(s: string)
  {
    forall k :: 0 <= k < |s| ==> IsSpace(s[k])
  }

  /** A string with no whitespace at either end. */
  predicate Trimmed(s: string)
  {
    s == [] || (!IsSpace(s[0]) && !IsSpace(s[|s| - 1]))
  }

  /** `s.lstrip()`: `s` after dropping its leading whitespace. */
  function StripStart(s: string): (r: string)
    ensures |r| <= |s|
  {
    if s == [] || !IsSpace(s[0]) then s else StripStart(s[1..])
  }

  /** `s.rstrip()`: `s` after dropping its trailing whitespace. */
  function StripEnd(s: string): (r: string)
    ensures |r| <= |s|
  {
    if s == [] || !IsSpace(s[|s| - 1]) then s else StripEnd(s[..|s| - 1])
  }

  /** `s.strip()`: `s` without its leading and trailing whitespace. */
  function Strip(s: string): string
  {
    StripEnd(StripStart(s))
  }

  /** What `lstrip` drops is a run of whitespace; what it keeps is the rest
      of the string and does not begin with whitespace. */
  lemma {:induction false} StripStartSpec(s: string)
    ensures StripStart(s) == s[|s| - |StripStart(s)|..]
    ensures AllSpace(s[..|s| - |StripStart(s)|])
    ensures StripStart(s) == [] || !IsSpace(StripStart(s)[0])
  {
    if s != [] && IsSpace(s[0]) {
      StripStartSpec(s[1..]);
      var n := |s| - |StripStart(s)|;
      assert s[1..][..n - 1] == s[1..n];
      assert s[1..][n - 1..] == s[n..];
    }
  }

  /** What `rstrip` drops is a run of whitespace; what it keeps is the start
      of the string and does not end with whitespace. */
  lemma {:induction false} StripEndSpec(s: string)
    ensures StripEnd(s) == s[..|StripEnd(s)|]
    ensures AllSpace(s[|StripEnd(s)|..])
    ensures StripEnd(s) == [] || !IsSpace(StripEnd(s)[|StripEnd(s)| - 1])
  {
    if s != [] && IsSpace(s[|s| - 1]) {
      var s' := s[..|s| - 1];
      StripEndSpec(s');
      var n := |StripEnd(s)|;
      assert s'[..n] == s[..n];
      assert s[n..] == s'[n..] + [s[|s| - 1]];
    }
  }

  /** Stripping only ever removes whitespace: `s` is the trimmed string
      `Strip(s)` between two runs of whitespace, the first of them `lead`
      characters long. */
  lemma StripMargins(s: string) returns (lead: nat)
    ensures Trimmed(Strip(s))
    ensures lead + |Strip(s)| <= |s|
    ensures s[lead..lead + |Strip(s)|] == Strip(s)
    ensures AllSpace(s[..lead]) && AllSpace(s[lead + |Strip(s)|..])
  {
    var t := StripStart(s);
    var r := StripEnd(t);
    StripStartSpec(s);
    StripEndSpec(t);
    assert r == Strip(s);
    lead := |s| - |t|;
    assert AllSpace(s[..lead]);
    assert s[lead..] == t;
    assert s[lead..lead + |r|] == t[..|r|];
    assert s[lead + |r|..] == t[|r|..];
    assert AllSpace(t[|r|..]);
    if r != [] {
      assert r[0] == t[0];
    }
  }

  /** The margins of a string are determined: whatever whitespace surrounds
      a trimmed string, stripping gives back that string. */
  lemma {:induction false} StripSurrounded(a: string, r: string, b: string)
    requires AllSpace(a) && AllSpace(b) && Trimmed(r)
    ensures Strip(a + r + b) == r
  {
    assert a + r + b == a + (r + b);
    StripStartSurrounded(a, r + b);
    if r == [] {
      assert r + b == b;
      StripAllSpace(b);
    } else {
      assert r + b != [] && (r + b)[0] == r[0];
      assert StripStart(r + b) == r + b;
      StripEndSurrounded(r, b);
    }
  }

  lemma {:induction false} StripStartSurrounded(a: string, t: string)
    requires AllSpace(a)
    ensures StripStart(a + t) == StripStart(t)
    decreases |a|
  {
    if a != [] {
      assert (a + t)[1..] == a[1..] + t;
      StripStartSurrounded(a[1..], t);
    } else {
      assert a + t == t;
    }
  }

  lemma {:induction false} StripEndSurrounded(r: string, b: string)
    requires AllSpace(b) && r != [] && !IsSpace(r[|r| - 1])
    ensures StripEnd(r + b) == r
    decreases |b|
  {
    if b == [] {
      assert r + b == r;
    } else {
      assert (r + b)[..|r + b| - 1] == r + b[..|b| - 1];
      StripEndSurrounded(r, b[..|b| - 1]);
    }
  }

  lemma {:induction false} StripAllSpace(b: string)
    requires AllSpace(b)
    ensures StripStart(b) == [] && StripEnd(StripStart(b)) == []
    decreases |b|
  {
    if b != [] {
      StripAllSpace(b[1..]);
    }
  }

  /** `s.strip()` is idempotent. */
  lemma StripIdempotent(s: string)
    ensures Strip(Strip(s)) == Strip(s)
  {
    var r := Strip(s);
    var _ := StripMargins(s);
    assert [] + r + [] == r;
    StripSurrounded([], r, []);
  }

  /** `t` occurs in `s` starting at index `i`. */
  predicate OccursAt(s: string, t: string, i: nat)
  {
    i + |t| <= |s| && s[i..i + |t|] == t
  }

  /** Python's `t in s` for strings, found by scanning the start positions of `s`. */
  function Contains(s: string, t: string): bool
  {
    if t <= s then true
    else if s == [] then false
    else Contains(s[1..], t)
  }

  /** An occurrence at any index is found by the scan. */
  lemma {:induction false} ContainsAt(s: string, t: string, i: nat)
    requires OccursAt(s, t, i)
    ensures Contains(s, t)
    decreases i
  {
    if i == 0 {
      assert s[..|t|] == t;
    } else if !(t <= s) {
      var u, v := s[1..][i - 1..i - 1 + |t|], s[i..i + |t|];
      assert u == v;
      ContainsAt(s[1..], t, i - 1);
    }
  }

  /** What the scan finds is an occurrence. */
  lemma {:induction false} ContainsWitness(s: string, t: string) returns (i: nat)
    requires Contains(s, t)
    ensures OccursAt(s, t, i)
  {
    if t <= s {
      i := 0;
      assert s[0..|t|] == t;
    } else {
      var j := ContainsWitness(s[1..], t);
      i := j + 1;
      assert s[i..i + |t|] == s[1..][j..j + |t|];
    }
  }

  /** The scan agrees with the definition of a substring: an occurrence of `t`
      in `s` at some index. */
  lemma ContainsIff(s: string, t: string)
    ensures Contains(s, t) <==> exists i: nat :: OccursAt(s, t, i)
  {
    if Contains(s, t) {
      var i := ContainsWitness(s, t);
    } else {
      forall i: nat | OccursAt(s, t, i)
        ensures false
      {
        ContainsAt(s, t, i);
      }
    }
  }

  /** `sep.join(parts)`: the parts in order with `sep` between neighbours. */
  function Join(parts: seq<string>, sep: string): string
  {
    if parts == [] then ""
    else if |parts| == 1 then parts[0]
    else parts[0] + sep + Join(parts[1..], sep)
  }

  function TotalLength(parts: seq<string>): nat
  {
    if parts == [] then 0 else |parts[0]| + TotalLength(parts[1..])
  }

  /** The joined text is the sum of the part lengths plus one separator
      between each pair of neighbours. */
  lemma {:induction false} JoinLength(parts: seq<string>, sep: string)
    requires parts != []
    ensures |Join(parts, sep)| == TotalLength(parts) + (|parts| - 1) * |sep|
  {
    if |parts| > 1 {
      JoinLength(parts[1..], sep);
    }
  }

  /** Joining distributes over a cut of the list: the two halves are joined
      separately and glued with one separator. */
  lemma {:induction false} JoinAppend(parts: seq<string>, sep: string, i: nat)
    requires 0 < i < |parts|
    ensures Join(parts, sep) == Join(parts[..i], sep) + sep + Join(parts[i..], sep)
  {
    if i == 1 {
      assert parts[..1] == [parts[0]];
    } else {
      JoinAppend(parts[1..], sep, i - 1);
      assert parts[..i][1..] == parts[1..][..i - 1];
      assert parts[1..][i - 1..] == parts[i..];
      assert Join(parts[..i], sep) == parts[0] + sep + Join(parts[1..][..i - 1], sep);
    }
  }

  /** Where the `i`-th part begins in `Join(parts, sep)`. */
  function JoinOffset(parts: seq<string>, sep: string, i: nat): nat
    requires i <= |parts|
  {
    if i == 0 then 0 else |Join(parts[..i], sep)| + |sep|
  }

  /** The joined text begins with the first part, followed by the separator
      when more parts come. */
  lemma JoinHead(parts: seq<string>, sep: string)
    requires parts != []
    ensures |parts[0]| <= |Join(parts, sep)| && Join(parts, sep)[..|parts[0]|] == parts[0]
    ensures |parts| > 1 ==>
      |parts[0]| + |sep| <= |Join(parts, sep)| &&
      Join(parts, sep)[|parts[0]|..|parts[0]| + |sep|] == sep
  {
    if |parts| > 1 {
      var j := Join(parts, sep);
      assert j == parts[0] + sep + Join(parts[1..], sep);
      assert j[..|parts[0]|] == parts[0];
      assert j[|parts[0]|..|parts[0]| + |sep|] == sep;
    }
  }

  /** Every part appears in the joined text, in order, at its offset, and
      each but the last is followed by the separator. */
  lemma JoinPartAt(parts: seq<string>, sep: string, i: nat)
    requires i < |parts|
    ensures JoinOffset(parts, sep, i) + |parts[i]| <= |Join(parts, sep)|
    ensures Join(parts, sep)[JoinOffset(parts, sep, i)..JoinOffset(parts, sep, i) + |parts[i]|] == parts[i]
    ensures i + 1 < |parts| ==>
      JoinOffset(parts, sep, i) + |parts[i]| + |sep| <= |Join(parts, sep)| &&
      Join(parts, sep)[JoinOffset(parts, sep, i) + |parts[i]|..JoinOffset(parts, sep, i) + |parts[i]| + |sep|] == sep
  {
    JoinHead(parts[i..], sep);
    if i == 0 {
      assert parts[0..] == parts;
    } else {
      JoinAppend(parts, sep, i);
      var a, t := Join(parts[..i], sep), Join(parts[i..], sep);
      var o := JoinOffset(parts, sep, i);
      assert Join(parts, sep)[o..] == t;
    }
  }

  /** The offsets of neighbouring parts differ by the part and one separator. */
  lemma JoinOffsetNext(parts: seq<string>, sep: string, i: nat)
    requires i + 1 < |parts|
    ensures JoinOffset(parts, sep, i + 1) == JoinOffset(parts, sep, i) + |parts[i]| + |sep|
  {
    if i == 0 {
      assert parts[..1] == [parts[0]];
    } else {
      JoinAppend(parts[..i + 1], sep, i);
      assert parts[..i + 1][..i] == parts[..i];
      assert parts[..i + 1][i..] == [parts[i]];
    }
  }

  /** Python's `str.lower` restricted to ASCII letters. */
  function LowerChar(c: char): char
  {
    if 'A' <= c <= 'Z' then (c as int - 'A' as int + 'a' as int) as char else c
  }

  function Lower(s: string): string
  {
    seq(|s|, k requires 0 <= k < |s| => LowerChar(s[k]))
  }
}
