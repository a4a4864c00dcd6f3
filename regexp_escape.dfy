/**
 * `RegExp.escape`: `String(s).replace(/[\\^$*+?.()|[\]{}]/g, '\\$&')`, which
 * puts a backslash in front of every regular-expression metacharacter so
 * that the result, used as a pattern, stands for the literal text.
 */
module RegExpEscape {
  import opened CodeUnits

  const Backslash: CodeUnit := Unit('\\')

  /** The character class `[\\^$*+?.()|[\]{}]`; `-` and `/` are not in it. */
  predicate IsMeta(c: CodeUnit)
    ensures IsMeta(c) ==> c < 0x80 && c != Unit('-') && c != Unit('/')
  {
    || c == Unit('\\') || c == Unit('^') || c == Unit('$') || c == Unit('*')
    || c == Unit('+') || c == Unit('?') || c == Unit('.') || c == Unit('(')
    || c == Unit(')') || c == Unit('|') || c == Unit('[') || c == Unit(']')
    || c == Unit('{') || c == Unit('}')
  }

  predicate NoMeta(s: Str) {
    forall i | 0 <= i < |s| :: !IsMeta(s[i])
  }

  /** The number of metacharacters in `s`. */
  function CountMeta(s: Str): (n: nat)
    ensures n <= |s|
  {
    if s == [] then 0 else (if IsMeta(s[0]) then 1 else 0) + CountMeta(s[1..])
  }

  /** The replacement of one code unit: `\` and the match, or the code unit itself. */
  function EscapeUnit(c: CodeUnit): (r: Str)
    ensures |r| == if IsMeta(c) then 2 else 1
    ensures r[|r| - 1] == c && (IsMeta(c) ==> r[0] == Backslash)
  {
    if IsMeta(c) then [Backslash, c] else [c]
  }

  /** A global replace visits the code units from left to right. */
  function Escape(s: Str): (r: Str)
    ensures |r| == |s| + CountMeta(s)
  {
    if s == [] then [] else EscapeUnit(s[0]) + Escape(s[1..])
  }

  /** Drops the backslash in front of each escaped code unit. */
  function Unescape(r: Str): (s: Str)
    ensures |s| <= |r|
  {
    if r == [] then []
    else if r[0] == Backslash && |r| >= 2 then [r[1]] + Unescape(r[2..])
    else [r[0]] + Unescape(r[1..])
  }

  /**
   * The strings `Escape` can produce: every metacharacter stands behind a
   * backslash, and every backslash is followed by a metacharacter.
   */
  predicate WellEscaped(r: Str)
    decreases |r|
  {
    if r == [] then true
    else if r[0] == Backslash then |r| >= 2 && IsMeta(r[1]) && WellEscaped(r[2..])
    else !IsMeta(r[0]) && WellEscaped(r[1..])
  }

  /** Escaping works code unit by code unit, so it distributes over concatenation. */
  lemma {:induction false} EscapeConcat(a: Str, b: Str)
    ensures Escape(a + b) == Escape(a) + Escape(b)
  {
    if a == [] {
      assert a + b == b;
    } else {
      assert (a + b)[1..] == a[1..] + b;
      EscapeConcat(a[1..], b);
    }
  }

  /** Position by position: a metacharacter escaped, anything else copied. */
  lemma {:induction false} EscapeAt(a: Str, c: CodeUnit, b: Str)
    ensures Escape(a + [c] + b) == Escape(a) + (if IsMeta(c) then [Backslash, c] else [c]) + Escape(b)
  {
    EscapeConcat(a + [c], b);
    EscapeConcat(a, [c]);
    assert Escape([c]) == EscapeUnit(c) + Escape([]);
  }

  /** `Escape` leaves a string alone exactly when it holds no metacharacter. */
  lemma {:induction false} EscapeFixedPoint(s: Str)
    ensures Escape(s) == s <==> NoMeta(s)
  {
    if s != [] {
      EscapeFixedPoint(s[1..]);
      if NoMeta(s) {
        assert NoMeta(s[1..]) by {
          forall i | 0 <= i < |s[1..]| ensures !IsMeta(s[1..][i]) {
            assert s[1..][i] == s[i + 1];
          }
        }
        assert [s[0]] + s[1..] == s;
      } else if Escape(s) == s {
        CountMetaZero(s);
      }
    }
  }

  /** A string in which no metacharacter is counted holds none. */
  lemma {:induction false} CountMetaZero(s: Str)
    requires CountMeta(s) == 0
    ensures NoMeta(s)
  {
    if s != [] {
      CountMetaZero(s[1..]);
      forall i | 0 <= i < |s| ensures !IsMeta(s[i]) {
        if i > 0 {
          assert s[i] == s[1..][i - 1];
        }
      }
    }
  }

  /** Removing the escapes recovers the original string. */
  lemma {:induction false} UnescapeEscape(s: Str)
    ensures Unescape(Escape(s)) == s
  {
    if s != [] {
      UnescapeEscape(s[1..]);
      var r := Escape(s);
      if IsMeta(s[0]) {
        assert r[0] == Backslash && r[1] == s[0] && r[2..] == Escape(s[1..]);
      } else {
        assert r[0] == s[0] && r[1..] == Escape(s[1..]);
      }
      assert [s[0]] + s[1..] == s;
    }
  }

  /** Every escaped string is well formed. */
  lemma {:induction false} EscapeWellEscaped(s: Str)
    ensures WellEscaped(Escape(s))
  {
    if s != [] {
      EscapeWellEscaped(s[1..]);
      var r := Escape(s);
      if IsMeta(s[0]) {
        assert r[2..] == Escape(s[1..]);
      } else {
        assert r[1..] == Escape(s[1..]);
      }
    }
  }

  /** Every well-formed string is the escape of its unescaping: `Escape` is onto them. */
  lemma {:induction false} EscapeUnescape(r: Str)
    requires WellEscaped(r)
    ensures Escape(Unescape(r)) == r
  {
    if r != [] {
      if r[0] == Backslash {
        EscapeUnescape(r[2..]);
        assert Unescape(r) == [r[1]] + Unescape(r[2..]);
        assert r == [r[0], r[1]] + r[2..];
      } else {
        EscapeUnescape(r[1..]);
        assert Unescape(r) == [r[0]] + Unescape(r[1..]);
        assert r == [r[0]] + r[1..];
      }
    }
  }

  /** Different strings have different escapes. */
  lemma EscapeInjective(a: Str, b: Str)
    ensures Escape(a) == Escape(b) <==> a == b
  {
    UnescapeEscape(a);
    UnescapeEscape(b);
  }

  /** `-` and `/` are copied; `.` is escaped. */
  lemma EscapeExample()
    ensures Escape([Unit('-'), Unit('/'), Unit('.')]) == [Unit('-'), Unit('/'), Backslash, Unit('.')]
  {
  }
}
