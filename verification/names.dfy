/**
 Player names (server/src/rooms.js `normalizeName`, `findPlayerByName` and
 the stored name of `addPlayer`). Two names denote the same player when
 they agree after trimming white space and lower-casing.
 */
module Names {
  import opened Basics

  /** The characters JavaScript's `String.prototype.trim` removes: the
      white space and line terminator characters of section 12.2 and 12.3
      of ECMA-262 (tab, vertical tab, form feed, space, no-break space, the
      byte order mark, the space separators of Unicode category Zs, line
      feed, carriage return and the two Unicode line and paragraph
      separators). */
  predicate IsSpace(c: char)
  {
    || c == '\t' || c == '\n' || c == '\U{000B}' || c == '\U{000C}' || c == '\r'
    || c == ' ' || c == '\U{00A0}' || c == '\U{1680}'
    || ('\U{2000}' <= c <= '\U{200A}')
    || c == '\U{2028}' || c == '\U{2029}' || c == '\U{202F}' || c == '\U{205F}'
    || c == '\U{3000}' || c == '\U{FEFF}'
  }

  /** Leading white space removed. */
  function TrimStart(s: string): (r: string)
    ensures |r| <= |s| && r == s[|s| - |r|..]
    ensures forall i :: 0 <= i < |s| - |r| ==> IsSpace(s[i])
    ensures |r| > 0 ==> !IsSpace(r[0])
  {
    if |s| > 0 && IsSpace(s[0]) then TrimStart(s[1..]) else s
  }

  /** Trailing white space removed. */
  function TrimEnd(s: string): (r: string)
    ensures |r| <= |s| && r == s[..|r|]
    ensures forall i :: |r| <= i < |s| ==> IsSpace(s[i])
    ensures |r| > 0 ==> !IsSpace(r[|r| - 1])
  {
    if |s| > 0 && IsSpace(s[|s| - 1]) then TrimEnd(s[..|s| - 1]) else s
  }

  /** `trim`. */
  function Trim(s: string): string
  {
    TrimEnd(TrimStart(s))
  }

  /** `toLowerCase` on one character, for the ASCII letters. */
  function LowerChar(c: char): (r: char)
    ensures 'A' <= c <= 'Z' ==> r as int == c as int + 32
    ensures !('A' <= c <= 'Z') ==> r == c
  {
    if 'A' <= c <= 'Z' then (c as int + 32) as char else c
  }

  function Lower(s: string): (r: string)
    ensures |r| == |s|
    ensures forall i :: 0 <= i < |s| ==> r[i] == LowerChar(s[i])
  {
    seq(|s|, i requires 0 <= i < |s| => LowerChar(s[i]))
  }

  /** `normalizeName`: trimmed, then lower-cased. */
  function NormalizeName(name: string): (r: string)
    ensures |r| <= |name|
    ensures |r| > 0 ==> !IsSpace(r[0]) && !IsSpace(r[|r| - 1])
    ensures forall i :: 0 <= i < |r| ==> !('A' <= r[i] <= 'Z')
  {
    Lower(Trim(name))
  }

  /* A string with no white space at either end is its own trim. */
  lemma TrimNoSpace(s: string)
    requires |s| > 0 ==> !IsSpace(s[0]) && !IsSpace(s[|s| - 1])
    ensures Trim(s) == s
  {
  }

  /* Lower-casing never turns a white space character into another kind
     of character or the other way round. */
  lemma LowerKeepsSpace(c: char)
    ensures IsSpace(LowerChar(c)) <==> IsSpace(c)
  {
  }

  lemma {:induction false} TrimStartLower(s: string)
    ensures TrimStart(Lower(s)) == Lower(TrimStart(s))
    decreases |s|
  {
    if |s| > 0 {
      LowerKeepsSpace(s[0]);
      if IsSpace(s[0]) {
        assert Lower(s)[1..] == Lower(s[1..]);
        TrimStartLower(s[1..]);
      }
    }
  }

  lemma {:induction false} TrimEndLower(s: string)
    ensures TrimEnd(Lower(s)) == Lower(TrimEnd(s))
    decreases |s|
  {
    if |s| > 0 {
      var l := Lower(s);
      var n := |s| - 1;
      LowerKeepsSpace(s[n]);
      assert l[n] == LowerChar(s[n]);
      if IsSpace(s[n]) {
        assert l[..n] == Lower(s[..n]);
        TrimEndLower(s[..n]);
        assert TrimEnd(l) == TrimEnd(l[..n]);
      } else {
        assert TrimEnd(l) == l;
      }
    }
  }

  lemma LowerUnchanged(s: string)
    requires forall i :: 0 <= i < |s| ==> !('A' <= s[i] <= 'Z')
    ensures Lower(s) == s
  {
    assert forall i :: 0 <= i < |s| ==> Lower(s)[i] == s[i];
  }

  /* Normalising twice is normalising once. */
  lemma NormalizeIdempotent(name: string)
    ensures NormalizeName(NormalizeName(name)) == NormalizeName(name)
  {
    var n := NormalizeName(name);
    TrimNoSpace(n);
    LowerUnchanged(n);
  }

  /* Names that differ only in the case of ASCII letters normalise alike,
     and so do names that differ only in surrounding white space. */
  lemma NormalizeCaseInsensitive(a: string, b: string)
    requires Lower(a) == Lower(b)
    ensures NormalizeName(a) == NormalizeName(b)
  {
    TrimStartLower(a);
    TrimEndLower(TrimStart(a));
    TrimStartLower(b);
    TrimEndLower(TrimStart(b));
  }

  predicate AllSpace(s: string)
  {
    forall i :: 0 <= i < |s| ==> IsSpace(s[i])
  }

  lemma {:induction false} TrimStartPad(p: string, x: string)
    requires AllSpace(p)
    ensures TrimStart(p + x) == TrimStart(x)
    decreases |p|
  {
    if |p| > 0 {
      assert IsSpace((p + x)[0]);
      assert (p + x)[1..] == p[1..] + x;
      assert AllSpace(p[1..]);
      TrimStartPad(p[1..], x);
      assert TrimStart(p + x) == TrimStart((p + x)[1..]);
    } else {
      assert p + x == x;
    }
  }

  lemma {:induction false} TrimEndPad(y: string, q: string)
    requires AllSpace(q)
    ensures TrimEnd(y + q) == TrimEnd(y)
    decreases |q|
  {
    if |q| > 0 {
      assert IsSpace((y + q)[|y + q| - 1]);
      assert (y + q)[..|y + q| - 1] == y + q[..|q| - 1];
      assert AllSpace(q[..|q| - 1]);
      TrimEndPad(y, q[..|q| - 1]);
      assert TrimEnd(y + q) == TrimEnd((y + q)[..|y + q| - 1]);
    } else {
      assert y + q == y;
    }
  }

  lemma {:induction false} TrimStartAppend(x: string, q: string)
    requires AllSpace(q)
    ensures TrimStart(x + q) == if TrimStart(x) == [] then [] else TrimStart(x) + q
    decreases |x|
  {
    if |x| == 0 {
      assert x + q == q;
    } else {
      assert (x + q)[1..] == x[1..] + q;
      if IsSpace(x[0]) {
        TrimStartAppend(x[1..], q);
      }
    }
  }

  /* White space around a name does not change its normal form. */
  lemma NormalizeIgnoresPadding(name: string, pad1: string, pad2: string)
    requires AllSpace(pad1) && AllSpace(pad2)
    ensures NormalizeName(pad1 + name + pad2) == NormalizeName(name)
  {
    assert pad1 + name + pad2 == pad1 + (name + pad2);
    TrimStartPad(pad1, name + pad2);
    TrimStartAppend(name, pad2);
    if TrimStart(name) != [] {
      TrimEndPad(TrimStart(name), pad2);
    }
  }

  /** The name `addPlayer` stores: the given name, or "Player" when it is
      empty, cut to its first 30 characters. It is not trimmed. */
  function StoredName(name: string): (r: string)
    ensures 0 < |r| <= MaxNameLength
    ensures name != [] ==> |r| == Min(|name|, MaxNameLength) && r == name[..|r|]
    ensures name == [] ==> r == "Player"
  {
    var given := if name == [] then "Player" else name;
    given[..Min(|given|, MaxNameLength)]
  }

  const MaxNameLength: nat := 30
}
