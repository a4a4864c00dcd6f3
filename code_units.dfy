/**
 * JavaScript strings as the program sees them: sequences of UTF-16 code
 * units. Every string in the model is a `Str`; `charCodeAt`, regular
 * expressions without the `u` flag and `.length` all work on code units.
 */
module CodeUnits {

  /** One UTF-16 code unit. */
  newtype CodeUnit = x: int | 0 <= x < 0x1_0000

  /** A JavaScript string. */
  type Str = seq<CodeUnit>

  /** The code unit of a character of the Basic Multilingual Plane. */
  function Unit(c: char): (u: CodeUnit)
    requires c as int < 0x1_0000
    ensures u as int == c as int
  {
    c as int as CodeUnit
  }

  /** A Dafny string literal of Basic Multilingual Plane characters, as code units. */
  function Lit(s: string): (r: Str)
    requires forall i | 0 <= i < |s| :: s[i] as int < 0x1_0000
    ensures |r| == |s|
    ensures forall i | 0 <= i < |s| :: r[i] as int == s[i] as int
  {
    seq(|s|, i requires 0 <= i < |s| => Unit(s[i]))
  }
}
