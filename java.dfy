/**
 * The parts of the Java platform the extensions lean on: nullable references,
 * `Map.get`, `MultivaluedMap.getFirst`, and the `String` methods
 * `toLowerCase`, `trim` and `split`, plus `java.util.regex` as an
 * uninterpreted engine.
 */
module Java {

  /** A Java reference that may be `null`. */
  datatype Option<+T> = None | Some(value: T)

  /** `Map.get`: the value stored under `key`, or `null` when the key is absent. */
  function MapGet<K, V>(m: map<K, V>, key: K): (r: Option<V>)
    ensures r.Some? <==> key in m
    ensures r.Some? ==> r.value == m[key]
  {
    if key in m then Some(m[key]) else None
  }

  /** Decoded form parameters: every parameter name with the values submitted for it. */
  type Form = map<string, seq<string>>

  /** `MultivaluedMap.getFirst`: the first value submitted under `name`, or `null`. */
  function GetFirst(form: Form, name: string): (r: Option<string>)
    ensures r.Some? <==> name in form && form[name] != []
    ensures r.Some? ==> r.value == form[name][0]
  {
    if name in form && |form[name]| > 0 then Some(form[name][0]) else None
  }

  /**
   * `java.util.regex` as seen by the extensions: whether a pattern string
   * compiles (otherwise `Pattern.compile` throws), and whether a compiled
   * pattern matches a whole input (`Matcher.matches`).
   */
  datatype Regex = Regex(compiles: string -> bool, fullMatch: (string, string) -> bool)

  // ---------------------------------------------------------------------
  // String.toLowerCase

  predicate IsUpper(c: char) { 'A' <= c <= 'Z' }

  /** Lower-cases one ASCII letter; every other character is kept. */
  function LowerChar(c: char): (r: char)
    ensures !IsUpper(r)
    ensures !IsUpper(c) ==> r == c
    ensures IsUpper(c) ==> r as int == c as int + 32
  {
    if IsUpper(c) then (c as int + 32) as char else c
  }

  /** `String.toLowerCase`, restricted to ASCII letters. */
  function Lower(s: string): (r: string)
    ensures |r| == |s|
    ensures forall i :: 0 <= i < |r| ==> !IsUpper(r[i]) && (!IsUpper(s[i]) ==> r[i] == s[i])
    ensures forall i :: 0 <= i < |s| && IsUpper(s[i]) ==> r[i] as int == s[i] as int + 32
  {
    seq(|s|, i requires 0 <= i < |s| => LowerChar(s[i]))
  }

  /** Two characters that are equal once ASCII case is ignored. */
  predicate SameUpToCase(c: char, d: char)
  {
    c == d || (IsUpper(c) && d as int == c as int + 32) || (IsUpper(d) && c as int == d as int + 32)
  }

  /** Lower-casing makes two strings equal exactly when they agree character by character up to ASCII case. */
  lemma LowerEqualIff(a: string, b: string)
    ensures Lower(a) == Lower(b) <==> |a| == |b| && forall i :: 0 <= i < |a| ==> SameUpToCase(a[i], b[i])
  {
    if |a| == |b| {
      if Lower(a) == Lower(b) {
        forall i | 0 <= i < |a| ensures SameUpToCase(a[i], b[i]) {
          assert LowerChar(a[i]) == Lower(a)[i] == Lower(b)[i] == LowerChar(b[i]);
        }
      }
      if forall i :: 0 <= i < |a| ==> SameUpToCase(a[i], b[i]) {
        forall i | 0 <= i < |a| ensures Lower(a)[i] == Lower(b)[i] {
          assert SameUpToCase(a[i], b[i]);
        }
      }
    }
  }

  // ---------------------------------------------------------------------
  // String.trim

  /** The characters `String.trim` removes: every code point up to and including the space. */
  predicate IsTrimmable(c: char) { c <= ' ' }

  /** How many trimmable characters `s` starts with. */
  function Leading(s: string): (n: nat)
    ensures n <= |s|
    ensures forall k :: 0 <= k < n ==> IsTrimmable(s[k])
    ensures n < |s| ==> !IsTrimmable(s[n])
  {
    if |s| > 0 && IsTrimmable(s[0]) then
      var n := 1 + Leading(s[1..]);
      assert forall k :: 1 <= k < n ==> s[k] == s[1..][k - 1];
      n
    else 0
  }

  /** The length of `s` without its trailing trimmable characters. */
  function Kept(s: string): (e: nat)
    ensures e <= |s|
    ensures forall k :: e <= k < |s| ==> IsTrimmable(s[k])
    ensures e > 0 ==> !IsTrimmable(s[e - 1])
  {
    if |s| > 0 && IsTrimmable(s[|s| - 1]) then Kept(s[..|s| - 1]) else |s|
  }

  /**
   * `String.trim`: the infix of `s` that starts after its leading trimmable
   * characters, and neither starts nor ends with a trimmable character;
   * everything cut away is trimmable.
   */
  function Trim(s: string): (r: string)
    ensures Leading(s) + |r| <= |s| && r == s[Leading(s)..Leading(s) + |r|]
    ensures forall k :: 0 <= k < Leading(s) ==> IsTrimmable(s[k])
    ensures forall k :: Leading(s) + |r| <= k < |s| ==> IsTrimmable(s[k])
    ensures r != [] ==> !IsTrimmable(r[0]) && !IsTrimmable(r[|r| - 1])
  {
    var n := Leading(s);
    var t := s[n..];
    var e := Kept(t);
    assert t[..e] == s[n..n + e];
    assert forall k :: n + e <= k < |s| ==> s[k] == t[k - n];
    t[..e]
  }

  /** A trimmed string has nothing left to trim. */
  lemma TrimIdempotent(s: string)
    ensures Trim(Trim(s)) == Trim(s)
  {
    var r := Trim(s);
    if r != [] {
      assert Leading(r) == 0;
      assert Kept(r) == |r|;
      assert r[0..][..|r|] == r;
    }
  }

  /** `trim()` yields the empty string exactly when every character is trimmable. */
  lemma TrimEmptyIff(s: string)
    ensures Trim(s) == [] <==> forall k :: 0 <= k < |s| ==> IsTrimmable(s[k])
  {
  }

  // ---------------------------------------------------------------------
  // String.split

  /**
   * The pieces of `s` between the occurrences of `sep`, empty pieces
   * included, so a string with n separators has n + 1 pieces.
   */
  function Segments(s: string, sep: char): (r: seq<string>)
    ensures |r| >= 1
    ensures forall k :: 0 <= k < |r| ==> sep !in r[k]
  {
    if s == [] then [[]]
    else
      var rest := Segments(s[1..], sep);
      if s[0] == sep then [[]] + rest
      else [[s[0]] + rest[0]] + rest[1..]
  }

  /** The pieces, glued back together with `sep` between neighbours. */
  function Join(parts: seq<string>, sep: char): string
  {
    if parts == [] then []
    else if |parts| == 1 then parts[0]
    else parts[0] + [sep] + Join(parts[1..], sep)
  }

  lemma JoinConsChar(c: char, parts: seq<string>, sep: char)
    requires parts != []
    ensures Join([[c] + parts[0]] + parts[1..], sep) == [c] + Join(parts, sep)
  {
    var ps := [[c] + parts[0]] + parts[1..];
    if |parts| > 1 {
      assert ps[1..] == parts[1..];
    }
  }

  /** Splitting and then joining gives the string back. */
  lemma {:induction false} JoinSegments(s: string, sep: char)
    ensures Join(Segments(s, sep), sep) == s
  {
    if s != [] {
      var rest := Segments(s[1..], sep);
      JoinSegments(s[1..], sep);
      if s[0] == sep {
        assert ([[]] + rest)[1..] == rest;
      } else {
        JoinConsChar(s[0], rest, sep);
      }
      assert s == [s[0]] + s[1..];
    }
  }

  /** Splitting `x + t` where `x` holds no separator extends the first piece of `t` by `x`. */
  lemma {:induction false} SegmentsPrefix(x: string, t: string, sep: char)
    requires sep !in x
    ensures Segments(x + t, sep) == [x + Segments(t, sep)[0]] + Segments(t, sep)[1..]
  {
    var st := Segments(t, sep);
    if x == [] {
      assert x + t == t;
      assert x + st[0] == st[0];
      assert [st[0]] + st[1..] == st;
    } else {
      SegmentsPrefix(x[1..], t, sep);
      var rest := Segments(x[1..] + t, sep);
      assert rest == [x[1..] + st[0]] + st[1..];
      assert (x + t)[0] == x[0] && x[0] != sep;
      assert (x + t)[1..] == x[1..] + t;
      assert Segments(x + t, sep) == [[x[0]] + rest[0]] + rest[1..];
      assert rest[0] == x[1..] + st[0] && rest[1..] == st[1..];
      assert [x[0]] + (x[1..] + st[0]) == x + st[0];
    }
  }

  /** Joining separator-free pieces and then splitting gives the pieces back. */
  lemma {:induction false} SegmentsJoin(parts: seq<string>, sep: char)
    requires parts != []
    requires forall k :: 0 <= k < |parts| ==> sep !in parts[k]
    ensures Segments(Join(parts, sep), sep) == parts
  {
    if |parts| == 1 {
      SegmentsPrefix(parts[0], [], sep);
      assert parts[0] + [] == parts[0];
    } else {
      var tail := Join(parts[1..], sep);
      SegmentsJoin(parts[1..], sep);
      SegmentsPrefix(parts[0], [sep] + tail, sep);
      assert parts[0] + [sep] + tail == parts[0] + ([sep] + tail);
      assert ([sep] + tail)[1..] == tail;
      assert Segments([sep] + tail, sep) == [[]] + Segments(tail, sep);
      assert parts[0] + [] == parts[0];
      assert parts == [parts[0]] + parts[1..];
    }
  }

  /** Drops the empty strings at the end of a sequence (what `split` with limit zero does). */
  function DropTrailingEmpty(parts: seq<string>): (r: seq<string>)
    ensures |r| <= |parts| && r == parts[..|r|]
    ensures forall k :: |r| <= k < |parts| ==> parts[k] == []
    ensures r != [] ==> r[|r| - 1] != []
  {
    if parts != [] && parts[|parts| - 1] == [] then DropTrailingEmpty(parts[..|parts| - 1]) else parts
  }

  /**
   * `String.split` on a one-character separator: the whole string when the
   * separator does not occur, otherwise the pieces with the trailing empty
   * ones removed.
   */
  function Split(s: string, sep: char): seq<string>
  {
    if sep !in s then [s] else DropTrailingEmpty(Segments(s, sep))
  }

  /** A non-empty string is one of the `split` results exactly when it is one of the pieces. */
  lemma SplitMembership(s: string, sep: char, x: string)
    requires x != []
    ensures x in Split(s, sep) <==> x in Segments(s, sep)
  {
    if sep !in s {
      SegmentsPrefix(s, [], sep);
      assert s + [] == s;
    } else {
      var ps := Segments(s, sep);
      var r := DropTrailingEmpty(ps);
      if x in ps {
        var k :| 0 <= k < |ps| && ps[k] == x;
        assert k < |r|;
        assert r[k] == x;
      }
    }
  }
}
