/** String helpers mirroring the few Python `str` operations the core uses:
    `sep.join`, `in`, `replace`, slicing, `upper`, `strip`, and a splitter
    that serves as the inverse of `join`. */
module Strings {

  /** `sep.join(parts)`. */
  function Join(parts: seq<string>, sep: string): string
  {
    if |parts| == 0 then ""
    else if |parts| == 1 then parts[0]
    else parts[0] + sep + Join(parts[1..], sep)
  }

  /** A character none of the parts nor the separator holds is not in
      the joined string either. */
  lemma {:induction false} JoinAvoids(parts: seq<string>, sep: string, c: char)
    requires c !in sep
    requires forall i :: 0 <= i < |parts| ==> c !in parts[i]
    ensures c !in Join(parts, sep)
  {
    if |parts| > 1 {
      JoinAvoids(parts[1..], sep, c);
    }
  }

  /** Python's `sub in s`. */
  predicate Contains(s: string, sub: string)
    decreases |s|
  {
    sub <= s || (|s| > 0 && Contains(s[1..], sub))
  }

  /** A string that lacks the first character of `sub` cannot contain `sub`. */
  lemma {:induction false} NotContainsFirst(s: string, sub: string)
    requires |sub| > 0 && sub[0] !in s
    ensures !Contains(s, sub)
    decreases |s|
  {
    if |s| > 0 {
      assert forall i :: 0 <= i < |s| - 1 ==> s[1..][i] == s[i + 1];
      NotContainsFirst(s[1..], sub);
    }
  }

  /** `s.count(c)` for a single character. */
  function CountChar(s: string, c: char): nat
  {
    if |s| == 0 then 0
    else (if s[0] == c then 1 else 0) + CountChar(s[1..], c)
  }

  lemma {:induction false} CountCharAbsent(s: string, c: char)
    ensures CountChar(s, c) == 0 <==> c !in s
  {
    if |s| > 0 {
      CountCharAbsent(s[1..], c);
      assert s == [s[0]] + s[1..];
    }
  }

  lemma CountCharOnce(a: string, b: string, c: char)
    requires c !in a && c !in b
    ensures CountChar(a + [c] + b, c) == 1
  {
    CountCharAbsent(a, c);
    CountCharAbsent(b, c);
    CountCharConcat(a, [c], c);
    CountCharConcat(a + [c], b, c);
  }

  lemma {:induction false} CountCharConcat(a: string, b: string, c: char)
    ensures CountChar(a + b, c) == CountChar(a, c) + CountChar(b, c)
  {
    if |a| == 0 {
      assert a + b == b;
    } else {
      assert (a + b)[1..] == a[1..] + b;
      CountCharConcat(a[1..], b, c);
    }
  }

  /** `s.replace(pat, rep)` for a non-empty `pat`: occurrences are replaced
      left to right without overlap. */
  function ReplaceAll(s: string, pat: string, rep: string): string
    requires |pat| > 0
    decreases |s|
  {
    if |s| < |pat| then s
    else if pat <= s then rep + ReplaceAll(s[|pat|..], pat, rep)
    else [s[0]] + ReplaceAll(s[1..], pat, rep)
  }

  /** `s.replace(pat, "")`; Python leaves `s` unchanged when `pat` is empty. */
  function RemoveAll(s: string, pat: string): string
  {
    if |pat| == 0 then s else ReplaceAll(s, pat, "")
  }

  lemma {:induction false} ReplaceAllAbsent(s: string, pat: string, rep: string)
    requires |pat| > 0
    requires !Contains(s, pat)
    ensures ReplaceAll(s, pat, rep) == s
    decreases |s|
  {
    if |s| >= |pat| {
      ReplaceAllAbsent(s[1..], pat, rep);
      assert [s[0]] + s[1..] == s;
    }
  }

  /** `s.replace(a, b)` for single characters. */
  function ReplaceChar(s: string, a: char, b: char): (r: string)
    ensures |r| == |s|
    ensures forall i :: 0 <= i < |s| ==> r[i] == (if s[i] == a then b else s[i])
  {
    seq(|s|, i requires 0 <= i < |s| => if s[i] == a then b else s[i])
  }

  /** `s[1:]`, which is empty for an empty `s`. */
  function Tail(s: string): string
  {
    if |s| == 0 then s else s[1..]
  }

  /** `c.upper()` restricted to ASCII letters. */
  function UpperChar(c: char): char
  {
    if 'a' <= c <= 'z' then (c as int - 'a' as int + 'A' as int) as char else c
  }

  function Upper(s: string): (r: string)
    ensures |r| == |s|
    ensures forall i :: 0 <= i < |s| ==> r[i] == UpperChar(s[i])
  {
    seq(|s|, i requires 0 <= i < |s| => UpperChar(s[i]))
  }

  /** `c.isspace()`: the ASCII whitespace and separator controls, and the
      Unicode spaces and line separators Python's `str.strip` removes. */
  predicate IsSpace(c: char)
  {
    || c == ' ' || ('\t' <= c <= '\r') || ('\U{1C}' <= c <= '\U{1F}')
    || c == '\U{85}' || c == '\U{A0}' || c == '\U{1680}' || ('\U{2000}' <= c <= '\U{200A}')
    || c == '\U{2028}' || c == '\U{2029}' || c == '\U{202F}' || c == '\U{205F}' || c == '\U{3000}'
  }

  function TrimRight(s: string): (r: string)
    ensures r <= s
    ensures |r| == 0 || !IsSpace(r[|r| - 1])
    ensures forall i :: |r| <= i < |s| ==> IsSpace(s[i])
  {
    if |s| == 0 then s
    else if IsSpace(s[|s| - 1]) then TrimRight(s[..|s| - 1])
    else s
  }

  function TrimLeft(s: string): (r: string)
    ensures |r| <= |s| && r == s[|s| - |r|..]
    ensures |r| == 0 || !IsSpace(r[0])
    ensures forall i :: 0 <= i < |s| - |r| ==> IsSpace(s[i])
  {
    if |s| == 0 then s
    else if IsSpace(s[0]) then TrimLeft(s[1..])
    else s
  }

  lemma TrimRightBlank(s: string)
    ensures TrimRight(s + " ") == TrimRight(s)
  {
    assert (s + " ")[..|s|] == s;
  }

  /** `s.strip()`. */
  function Strip(s: string): string
  {
    TrimLeft(TrimRight(s))
  }

  /** Splits `s` at every occurrence of the character `c`; there is always
      at least one piece. */
  function SplitAt(s: string, c: char): (r: seq<string>)
    ensures |r| >= 1
  {
    if |s| == 0 then [""]
    else if s[0] == c then [""] + SplitAt(s[1..], c)
    else
      var t := SplitAt(s[1..], c);
      [[s[0]] + t[0]] + t[1..]
  }

  function DropPrefix(s: string, p: string): string
  {
    if p <= s then s[|p|..] else s
  }

  function DropPrefixAll(pieces: seq<string>, p: string): (r: seq<string>)
    ensures |r| == |pieces|
  {
    if |pieces| == 0 then [] else [DropPrefix(pieces[0], p)] + DropPrefixAll(pieces[1..], p)
  }

  /** Splits at every occurrence of the separator `sep`, assuming its first
      character does not recur inside it. */
  function Split(s: string, sep: string): seq<string>
    requires |sep| > 0
  {
    var pieces := SplitAt(s, sep[0]);
    [pieces[0]] + DropPrefixAll(pieces[1..], sep[1..])
  }

  lemma {:induction false} SplitAtNoSep(a: string, b: string, c: char)
    requires c !in a
    ensures SplitAt(a + b, c) == [a + SplitAt(b, c)[0]] + SplitAt(b, c)[1..]
    decreases |a|
  {
    if |a| == 0 {
      assert a + b == b;
      var t := SplitAt(b, c);
      assert a + t[0] == t[0];
      assert [t[0]] + t[1..] == t;
    } else {
      assert (a + b)[0] == a[0];
      assert (a + b)[1..] == a[1..] + b;
      SplitAtNoSep(a[1..], b, c);
      assert [a[0]] + (a[1..] + SplitAt(b, c)[0]) == a + SplitAt(b, c)[0];
    }
  }

  lemma SplitAtSep(b: string, c: char)
    ensures SplitAt([c] + b, c) == [""] + SplitAt(b, c)
  {
    assert ([c] + b)[1..] == b;
  }

  /** The pieces of `Join(parts, sep)` cut at the separator's first
      character: the first part, then each later part behind the rest of
      the separator. */
  lemma {:induction false} SplitAtJoin(parts: seq<string>, sep: string)
    requires |parts| > 0 && |sep| > 0
    requires sep[0] !in sep[1..]
    requires forall i :: 0 <= i < |parts| ==> sep[0] !in parts[i]
    ensures var r := SplitAt(Join(parts, sep), sep[0]);
            |r| == |parts| && r[0] == parts[0] &&
            forall i :: 1 <= i < |parts| ==> r[i] == sep[1..] + parts[i]
  {
    var c := sep[0];
    if |parts| == 1 {
      SplitAtNoSep(parts[0], "", c);
      assert parts[0] + "" == parts[0];
    } else {
      var tail := Join(parts[1..], sep);
      assert Join(parts, sep) == parts[0] + ([c] + (sep[1..] + tail));
      SplitAtJoin(parts[1..], sep);
      SplitAtNoSep(parts[0], [c] + (sep[1..] + tail), c);
      SplitAtSep(sep[1..] + tail, c);
      SplitAtNoSep(sep[1..], tail, c);
      var t := SplitAt(tail, c);
      var r := SplitAt(Join(parts, sep), c);
      assert SplitAt([c] + (sep[1..] + tail), c)[0] == "";
      assert parts[0] + "" == parts[0];
      assert r == [parts[0]] + SplitAt(sep[1..] + tail, c);
      assert SplitAt(sep[1..] + tail, c) == [sep[1..] + t[0]] + t[1..];
      forall i | 1 <= i < |parts|
        ensures r[i] == sep[1..] + parts[i]
      {
        if i > 1 {
          assert r[i] == t[i - 1];
          assert t[i - 1] == sep[1..] + parts[1..][i - 1];
        }
      }
    }
  }

  /** Splitting is the inverse of joining when no part holds the
      separator's first character. */
  lemma {:induction false} SplitJoin(parts: seq<string>, sep: string)
    requires |parts| > 0 && |sep| > 0
    requires sep[0] !in sep[1..]
    requires forall i :: 0 <= i < |parts| ==> sep[0] !in parts[i]
    ensures Split(Join(parts, sep), sep) == parts
  {
    var r := SplitAt(Join(parts, sep), sep[0]);
    SplitAtJoin(parts, sep);
    var d := DropPrefixAll(r[1..], sep[1..]);
    DropPrefixAllPrefixed(r[1..], parts[1..], sep[1..]);
    assert [parts[0]] + parts[1..] == parts;
  }

  lemma {:induction false} DropPrefixAllPrefixed(pieces: seq<string>, parts: seq<string>, p: string)
    requires |pieces| == |parts|
    requires forall i :: 0 <= i < |parts| ==> pieces[i] == p + parts[i]
    ensures DropPrefixAll(pieces, p) == parts
  {
    if |pieces| > 0 {
      assert p <= pieces[0];
      assert pieces[0][|p|..] == parts[0];
      DropPrefixAllPrefixed(pieces[1..], parts[1..], p);
      assert [parts[0]] + parts[1..] == parts;
    }
  }
}
