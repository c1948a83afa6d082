/**
 * The string operations the core relies on: SQL `LOWER` and `LIKE` as the
 * text search uses them, and JavaScript's `String.prototype.trim`.
 */
module Text {

  // ---------------------------------------------------------------------------
  // LOWER
  // ---------------------------------------------------------------------------

  /** Case mapping of one character (the ASCII letters; others are unchanged). */
  function LowerChar(c: char): (d: char)
    ensures 'A' <= c <= 'Z' ==> 'a' <= d <= 'z' && d as int == c as int + 32
    ensures !('A' <= c <= 'Z') ==> d == c
  {
    if 'A' <= c <= 'Z' then (c as int + 32) as char else c
  }

  /** SQL `LOWER(s)`: every character mapped by LowerChar, length kept. */
  function Lower(s: string): (r: string)
    ensures |r| == |s|
    ensures forall i :: 0 <= i < |s| ==> r[i] == LowerChar(s[i])
    ensures forall i :: 0 <= i < |r| ==> !('A' <= r[i] <= 'Z')
  {
    seq(|s|, i requires 0 <= i < |s| => LowerChar(s[i]))
  }

  /** Two strings that differ only in the case of ASCII letters lower to the same string. */
  lemma {:induction false} LowerIgnoresCase(a: string, b: string)
    requires |a| == |b|
    requires forall i :: 0 <= i < |a| ==>
      a[i] == b[i] || ('A' <= a[i] <= 'Z' && b[i] as int == a[i] as int + 32) || ('A' <= b[i] <= 'Z' && a[i] as int == b[i] as int + 32)
    ensures Lower(a) == Lower(b)
  {
    forall i | 0 <= i < |a| ensures Lower(a)[i] == Lower(b)[i] {
      if a[i] != b[i] {
        if 'A' <= a[i] <= 'Z' {
          assert !('A' <= b[i] <= 'Z');
        } else {
          assert !('A' <= a[i] <= 'Z');
        }
      }
    }
  }

  /** Lowering twice is lowering once. */
  lemma LowerIdempotent(s: string)
    ensures Lower(Lower(s)) == Lower(s)
  {
  }

  /** Lowering distributes over concatenation. */
  lemma LowerConcat(a: string, b: string)
    ensures Lower(a + b) == Lower(a) + Lower(b)
  {
    assert forall i :: 0 <= i < |a + b| ==> Lower(a + b)[i] == (Lower(a) + Lower(b))[i];
  }

  // ---------------------------------------------------------------------------
  // LIKE
  // ---------------------------------------------------------------------------

  /** True when `sub` occurs in `s` starting at position `i`. */
  predicate OccursAt(s: string, sub: string, i: int)
  {
    0 <= i && i + |sub| <= |s| && s[i..i + |sub|] == sub
  }

  /** True when `sub` occurs in `s` as a contiguous block. */
  predicate Contains(s: string, sub: string)
  {
    exists i :: 0 <= i <= |s| && OccursAt(s, sub, i)
  }

  /** True when `p` holds neither of the LIKE wildcards `%` and `_`. */
  predicate NoWildcards(p: string)
  {
    forall i :: 0 <= i < |p| ==> p[i] != '%' && p[i] != '_'
  }

  /**
   * SQL `s LIKE p`: `%` matches any run of characters, `_` exactly one,
   * every other character itself; the whole of `s` must be matched.
   */
  function Like(s: string, p: string): (b: bool)
    ensures NoWildcards(p) ==> (b <==> s == p)
    decreases |s| + |p|
  {
    if p == [] then s == []
    else if p[0] == '%' then Like(s, p[1..]) || (s != [] && Like(s[1..], p))
    else if p[0] == '_' then s != [] && Like(s[1..], p[1..])
    else
      assert NoWildcards(p) ==> NoWildcards(p[1..]) by {
        if NoWildcards(p) {
          forall i | 0 <= i < |p[1..]| ensures p[1..][i] != '%' && p[1..][i] != '_' {
            assert p[1..][i] == p[i + 1];
          }
        }
      }
      assert s != [] ==> (s == p <==> s[0] == p[0] && s[1..] == p[1..]) by {
        if s != [] {
          assert s == [s[0]] + s[1..] && p == [p[0]] + p[1..];
        }
      }
      s != [] && s[0] == p[0] && Like(s[1..], p[1..])
  }

  /** A trailing `%` after a wildcard-free literal: `s LIKE t%` iff `t` is a prefix of `s`. */
  lemma {:induction false} LikePrefix(s: string, t: string)
    requires NoWildcards(t)
    ensures Like(s, t + "%") <==> (|t| <= |s| && s[..|t|] == t)
    decreases |t|
  {
    if t == [] {
      LikeAnything(s);
      assert t + "%" == "%";
    } else {
      assert (t + "%")[0] == t[0];
      assert (t + "%")[1..] == t[1..] + "%";
      assert NoWildcards(t[1..]) by {
        forall i | 0 <= i < |t[1..]| ensures t[1..][i] != '%' && t[1..][i] != '_' {
          assert t[1..][i] == t[i + 1];
        }
      }
      assert t[0] != '%' && t[0] != '_';
      if s != [] {
        LikePrefix(s[1..], t[1..]);
        if |t| <= |s| && s[..|t|] == t {
          assert s[0] == t[0];
          assert s[1..][..|t[1..]|] == t[1..];
        }
        if s[0] == t[0] && |t[1..]| <= |s[1..]| && s[1..][..|t[1..]|] == t[1..] {
          assert s[..|t|] == [s[0]] + s[1..][..|t[1..]|];
          assert t == [t[0]] + t[1..];
        }
      }
    }
  }

  /** `%` alone matches every string. */
  lemma {:induction false} LikeAnything(s: string)
    ensures Like(s, "%")
    decreases |s|
  {
    assert "%"[1..] == [];
    if s != [] {
      LikeAnything(s[1..]);
    }
  }

  /** A leading `%`: `s LIKE %q` iff some suffix of `s` matches `q`. */
  lemma {:induction false} LikeLeadingPercent(s: string, q: string)
    ensures Like(s, "%" + q) <==> exists i :: 0 <= i <= |s| && Like(s[i..], q)
    decreases |s|
  {
    var p := "%" + q;
    assert p[0] == '%' && p[1..] == q;
    assert s[0..] == s;
    if s != [] {
      LikeLeadingPercent(s[1..], q);
      if Like(s[1..], p) {
        var i :| 0 <= i <= |s[1..]| && Like(s[1..][i..], q);
        assert s[1..][i..] == s[i + 1..];
      }
      if exists i :: 0 <= i <= |s| && Like(s[i..], q) {
        var i :| 0 <= i <= |s| && Like(s[i..], q);
        if i > 0 {
          assert s[1..][i - 1..] == s[i..];
        }
      }
    }
  }

  /**
   * The search pattern `%t%` built from a wildcard-free term matches exactly
   * the strings that contain the term.
   */
  lemma LikeSubstring(s: string, t: string)
    requires NoWildcards(t)
    ensures Like(s, "%" + t + "%") <==> Contains(s, t)
  {
    assert "%" + t + "%" == "%" + (t + "%");
    LikeLeadingPercent(s, t + "%");
    if Like(s, "%" + t + "%") {
      var i :| 0 <= i <= |s| && Like(s[i..], t + "%");
      LikePrefix(s[i..], t);
      assert s[i..][..|t|] == s[i..i + |t|];
      assert OccursAt(s, t, i);
    }
    if Contains(s, t) {
      var i :| 0 <= i <= |s| && OccursAt(s, t, i);
      LikePrefix(s[i..], t);
      assert s[i..][..|t|] == s[i..i + |t|];
      assert Like(s[i..], t + "%");
      assert Like(s, "%" + (t + "%"));
    }
  }

  /** Lowering keeps the wildcards where they are and adds none. */
  lemma LowerNoWildcards(t: string)
    requires NoWildcards(t)
    ensures NoWildcards(Lower(t))
  {
  }

  /** The one character `%`, lowered, is still `%`. */
  lemma LowerPercent()
    ensures Lower("%") == "%"
  {
  }

  // ---------------------------------------------------------------------------
  // trim
  // ---------------------------------------------------------------------------

  /**
   * The characters `trim` removes: ECMAScript WhiteSpace (tab, vertical tab,
   * form feed, space, no-break space, byte order mark and the Unicode space
   * separators) and LineTerminator (line feed, carriage return, line and
   * paragraph separators).
   */
  predicate IsWhitespace(c: char)
  {
    c == '\t' || c == '\n' || c == '\U{000B}' || c == '\U{000C}' || c == '\r' || c == ' ' ||
    c == '\U{00A0}' || c == '\U{1680}' || ('\U{2000}' <= c <= '\U{200A}') ||
    c == '\U{2028}' || c == '\U{2029}' || c == '\U{202F}' || c == '\U{205F}' ||
    c == '\U{3000}' || c == '\U{FEFF}'
  }

  /** `s` with its leading whitespace removed. */
  function TrimStart(s: string): (r: string)
    ensures |r| <= |s| && r == s[|s| - |r|..]
    ensures r != [] ==> !IsWhitespace(r[0])
    ensures forall i :: 0 <= i < |s| - |r| ==> IsWhitespace(s[i])
  {
    if s != [] && IsWhitespace(s[0]) then TrimStart(s[1..]) else s
  }

  /** `s` with its trailing whitespace removed. */
  function TrimEnd(s: string): (r: string)
    ensures |r| <= |s| && r == s[..|r|]
    ensures r != [] ==> !IsWhitespace(r[|r| - 1])
    ensures forall i :: |r| <= i < |s| ==> IsWhitespace(s[i])
  {
    if s != [] && IsWhitespace(s[|s| - 1]) then TrimEnd(s[..|s| - 1]) else s
  }

  /** JavaScript `s.trim()`: whitespace removed from both ends. */
  function Trim(s: string): (r: string)
    ensures |r| <= |s|
    ensures r != [] ==> !IsWhitespace(r[0]) && !IsWhitespace(r[|r| - 1])
  {
    var t := TrimStart(s);
    assert TrimEnd(t) != [] ==> TrimEnd(t)[0] == t[0];
    TrimEnd(t)
  }

  /** Where the trimmed text starts in `s`. */
  function TrimOffset(s: string): (lo: nat)
    ensures lo <= |s|
  {
    |s| - |TrimStart(s)|
  }

  /** Trim returns the block of `s` that starts at TrimOffset(s). */
  lemma TrimIsSlice(s: string)
    ensures TrimOffset(s) + |Trim(s)| <= |s|
    ensures Trim(s) == s[TrimOffset(s)..TrimOffset(s) + |Trim(s)|]
  {
    var t := TrimStart(s);
    var lo := |s| - |t|;
    var r := TrimEnd(t);
    assert t == s[lo..];
    assert r == t[..|r|];
  }

  /** Everything trim cuts off at the front is whitespace. */
  lemma TrimCutsLeadingWhitespace(s: string)
    ensures forall i :: 0 <= i < TrimOffset(s) ==> IsWhitespace(s[i])
  {
  }

  /** Everything trim cuts off at the back is whitespace. */
  lemma TrimCutsTrailingWhitespace(s: string)
    ensures forall i :: TrimOffset(s) + |Trim(s)| <= i < |s| ==> IsWhitespace(s[i])
  {
    var t := TrimStart(s);
    var r := TrimEnd(t);
    assert Trim(s) == r && TrimOffset(s) == |s| - |t|;
    WhitespaceTail(s, t, |r|);
  }

  /** Whitespace after position `n` of a suffix `t` of `s` is whitespace after the same point in `s`. */
  lemma WhitespaceTail(s: string, t: string, n: nat)
    requires |t| <= |s| && t == s[|s| - |t|..] && n <= |t|
    requires forall k :: n <= k < |t| ==> IsWhitespace(t[k])
    ensures forall i :: |s| - |t| + n <= i < |s| ==> IsWhitespace(s[i])
  {
    forall i | |s| - |t| + n <= i < |s| ensures IsWhitespace(s[i]) {
      assert t[i - (|s| - |t|)] == s[i];
    }
  }

  /** What trim keeps has no whitespace at either end. */
  lemma TrimEnds(s: string)
    ensures Trim(s) != [] ==> !IsWhitespace(Trim(s)[0]) && !IsWhitespace(Trim(s)[|Trim(s)| - 1])
  {
    var t := TrimStart(s);
    var r := TrimEnd(t);
    if r != [] {
      assert r[0] == t[0];
    }
  }

  /** A string cut from the ends of which no whitespace can be removed. */
  lemma TrimStartOfTrimmed(r: string)
    requires r == [] || !IsWhitespace(r[0])
    ensures TrimStart(r) == r
  {
  }

  /** Trimming a trimmed string changes nothing. */
  lemma TrimIdempotent(s: string)
    ensures Trim(Trim(s)) == Trim(s)
  {
    var r := Trim(s);
    TrimEnds(s);
    TrimStartOfTrimmed(r);
  }
}
