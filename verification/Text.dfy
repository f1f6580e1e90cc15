/**
 Kernel strings as byte sequences: splitting and joining at '/', and the UTF-8
 check of `core::str::from_utf8`.
 */
module Text {
  import opened Prelude

  type Str = seq<byte>

  const SLASH: byte := 0x2F
  const BACKSLASH: byte := 0x5C
  const DOT: Str := [0x2E]
  const DOT_DOT: Str := [0x2E, 0x2E]

  predicate NoSlash(s: Str) { SLASH !in s }

  /** `s.split('/')`. */
  function Split(s: Str): (parts: seq<Str>)
    ensures |parts| >= 1
  {
    if s == [] then [[]]
    else if s[0] == SLASH then [[]] + Split(s[1..])
    else Prepend(s[0], Split(s[1..]))
  }

  function Prepend(b: byte, parts: seq<Str>): (r: seq<Str>)
    requires |parts| >= 1
    ensures |r| == |parts|
  {
    [[b] + parts[0]] + parts[1..]
  }

  lemma PrependConcat(b: byte, left: seq<Str>, right: seq<Str>)
    requires |left| >= 1
    ensures Prepend(b, left + right) == Prepend(b, left) + right
  {
    assert (left + right)[1..] == left[1..] + right;
  }

  /** The parts with one '/' between neighbours. */
  function Join(parts: seq<Str>): (s: Str) {
    if parts == [] then []
    else if |parts| == 1 then parts[0]
    else parts[0] + [SLASH] + Join(parts[1..])
  }

  /** `filter(|part| !part.is_empty())`. */
  function NonEmpty(parts: seq<Str>): (r: seq<Str>) {
    if parts == [] then []
    else if parts[0] == [] then NonEmpty(parts[1..])
    else [parts[0]] + NonEmpty(parts[1..])
  }

  ghost predicate AllNoSlash(parts: seq<Str>) {
    forall i :: 0 <= i < |parts| ==> NoSlash(parts[i])
  }

  lemma {:induction false} SplitJoin(s: Str)
    ensures Join(Split(s)) == s
    ensures AllNoSlash(Split(s))
  {
    if s != [] {
      SplitJoin(s[1..]);
      var rest := Split(s[1..]);
      if s[0] == SLASH {
        assert ([[]] + rest)[1..] == rest;
      } else {
        assert Prepend(s[0], rest)[1..] == rest[1..];
      }
    }
  }

  lemma {:induction false} SplitNoSlash(s: Str)
    requires NoSlash(s)
    ensures Split(s) == [s]
  {
    if s != [] {
      SplitNoSlash(s[1..]);
      assert [s[0]] + s[1..] == s;
    }
  }

  lemma {:induction false} SplitConcat(a: Str, b: Str)
    ensures Split(a + [SLASH] + b) == Split(a) + Split(b)
  {
    var whole := a + [SLASH] + b;
    if a == [] {
      assert whole[1..] == b;
    } else {
      SplitConcat(a[1..], b);
      assert whole[1..] == a[1..] + [SLASH] + b;
      if a[0] == SLASH {
        assert [[]] + (Split(a[1..]) + Split(b)) == ([[]] + Split(a[1..])) + Split(b);
      } else {
        PrependConcat(a[0], Split(a[1..]), Split(b));
      }
    }
  }

  lemma {:induction false} JoinSplit(parts: seq<Str>)
    requires parts != [] && AllNoSlash(parts)
    ensures Split(Join(parts)) == parts
  {
    SplitNoSlash(parts[0]);
    if |parts| > 1 {
      SplitConcat(parts[0], Join(parts[1..]));
      JoinSplit(parts[1..]);
    }
  }

  lemma {:induction false} JoinConcat(a: seq<Str>, b: seq<Str>)
    requires a != [] && b != []
    ensures Join(a + b) == Join(a) + [SLASH] + Join(b)
  {
    if |a| == 1 {
      assert (a + b)[1..] == b;
    } else {
      JoinConcat(a[1..], b);
      assert (a + b)[1..] == a[1..] + b;
    }
  }

  lemma {:induction false} NonEmptyIdentity(parts: seq<Str>)
    requires forall i :: 0 <= i < |parts| ==> parts[i] != []
    ensures NonEmpty(parts) == parts
  {
    if parts != [] { NonEmptyIdentity(parts[1..]); }
  }

  lemma {:induction false} NonEmptyConcat(a: seq<Str>, b: seq<Str>)
    ensures NonEmpty(a + b) == NonEmpty(a) + NonEmpty(b)
  {
    if a == [] {
      assert a + b == b;
    } else {
      NonEmptyConcat(a[1..], b);
      assert (a + b)[1..] == a[1..] + b && (a + b)[0] == a[0];
      if a[0] != [] {
        var x, y, z := [a[0]], NonEmpty(a[1..]), NonEmpty(b);
        assert NonEmpty(a + b) == x + (y + z) && NonEmpty(a) == x + y;
        assert x + (y + z) == (x + y) + z;
      }
    }
  }

  // ---- UTF-8 ----

  predicate Continuation(b: byte) { 0x80 <= b <= 0xBF }

  predicate Second(lead: byte, b: byte) {
    if lead == 0xE0 then 0xA0 <= b <= 0xBF
    else if lead == 0xED then 0x80 <= b <= 0x9F
    else if lead == 0xF0 then 0x90 <= b <= 0xBF
    else if lead == 0xF4 then 0x80 <= b <= 0x8F
    else Continuation(b)
  }

  /** The length of the well-formed character at the front of `s`, or 0. */
  function CharWidth(s: Str): (w: nat)
    ensures w <= |s|
  {
    if s == [] then 0
    else if s[0] < 0x80 then 1
    else if 0xC2 <= s[0] <= 0xDF then
      if |s| >= 2 && Continuation(s[1]) then 2 else 0
    else if 0xE0 <= s[0] <= 0xEF then
      if |s| >= 3 && Second(s[0], s[1]) && Continuation(s[2]) then 3 else 0
    else if 0xF0 <= s[0] <= 0xF4 then
      if |s| >= 4 && Second(s[0], s[1]) && Continuation(s[2]) && Continuation(s[3]) then 4 else 0
    else 0
  }

  predicate ValidUtf8(s: Str) {
    s == [] || (var w := CharWidth(s); w > 0 && ValidUtf8(s[w..]))
  }

  lemma {:induction false} AsciiIsUtf8(s: Str)
    requires forall k :: 0 <= k < |s| ==> s[k] < 0x80
    ensures ValidUtf8(s)
  {
    if s != [] { AsciiIsUtf8(s[1..]); }
  }

  /** A string is valid UTF-8 exactly when both sides of an ASCII '/' are. */
  lemma {:induction false} Utf8Slash(a: Str, b: Str)
    ensures ValidUtf8(a + [SLASH] + b) <==> ValidUtf8(a) && ValidUtf8(b)
  {
    var whole := a + [SLASH] + b;
    if a == [] {
      assert whole[1..] == b;
    } else {
      FirstChar(a, b);
      var w := CharWidth(a);
      if w > 0 {
        Utf8Slash(a[w..], b);
        assert whole[w..] == a[w..] + [SLASH] + b;
      }
    }
  }

  lemma FirstChar(a: Str, b: Str)
    requires a != []
    ensures CharWidth(a + [SLASH] + b) == CharWidth(a)
  {
    var whole := a + [SLASH] + b;
    assert whole[0] == a[0];
    assert |a| == 1 ==> whole[1] == SLASH;
    assert |a| == 2 ==> whole[2] == SLASH;
    assert |a| == 3 ==> whole[3] == SLASH;
    assert |a| >= 2 ==> whole[1] == a[1];
    assert |a| >= 3 ==> whole[2] == a[2];
    assert |a| >= 4 ==> whole[3] == a[3];
  }

  lemma {:induction false} Utf8Join(parts: seq<Str>)
    requires parts != []
    ensures ValidUtf8(Join(parts)) <==> forall i :: 0 <= i < |parts| ==> ValidUtf8(parts[i])
  {
    if |parts| > 1 {
      Utf8Slash(parts[0], Join(parts[1..]));
      Utf8Join(parts[1..]);
      var rest := parts[1..];
      assert forall i :: 0 <= i < |rest| ==> rest[i] == parts[i + 1];
      assert forall i :: 1 <= i < |parts| ==> parts[i] == rest[i - 1];
    }
  }
}
