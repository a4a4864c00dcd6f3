/**
 * The text logic of the ExcelReader component: the character filter applied
 * to every text cell of the first worksheet, the loop that applies it in
 * place, and the conversion of the "binary" string written by the
 * spreadsheet codec into a byte buffer.
 */
module ExcelReader {
  import opened CodeUnits

  // ---------------------------------------------------------------------
  // removeSpecialCharacters: str.replace(/[^a-zA-Z0-9 ]/g, "")
  // ---------------------------------------------------------------------

  /** The character class `[a-zA-Z0-9 ]` (the regular expression has no `i` or `u` flag): ASCII only. */
  predicate IsAllowed(c: CodeUnit)
    ensures IsAllowed(c) ==> c < 0x80
  {
    || (Unit('a') <= c <= Unit('z'))
    || (Unit('A') <= c <= Unit('Z'))
    || (Unit('0') <= c <= Unit('9'))
    || c == Unit(' ')
  }

  predicate AllAllowed(s: Str) {
    forall i | 0 <= i < |s| :: IsAllowed(s[i])
  }

  /** Deletes every code unit outside the class, keeping the others in order. */
  function RemoveSpecialCharacters(s: Str): (r: Str)
    ensures AllAllowed(r)
    ensures |r| <= |s|
  {
    if s == [] then []
    else (if IsAllowed(s[0]) then [s[0]] else []) + RemoveSpecialCharacters(s[1..])
  }

  /** `t` can be obtained from `s` by deleting elements. */
  predicate IsSubsequence(t: Str, s: Str)
    decreases |s|
  {
    if t == [] then true
    else if s == [] then false
    else if t[0] == s[0] then IsSubsequence(t[1..], s[1..])
    else IsSubsequence(t, s[1..])
  }

  /** The filter only deletes: what is left keeps its relative order. */
  lemma {:induction false} RemoveIsSubsequence(s: Str)
    ensures IsSubsequence(RemoveSpecialCharacters(s), s)
  {
    if s != [] {
      RemoveIsSubsequence(s[1..]);
      var r := RemoveSpecialCharacters(s);
      if IsAllowed(s[0]) {
        assert r[0] == s[0] && r[1..] == RemoveSpecialCharacters(s[1..]);
      } else {
        assert r == RemoveSpecialCharacters(s[1..]);
        if r != [] {
          assert IsAllowed(r[0]);
        }
      }
    }
  }

  /** Every allowed code unit survives as often as it occurs; every other one vanishes. */
  lemma {:induction false} RemoveCounts(s: Str, c: CodeUnit)
    ensures multiset(RemoveSpecialCharacters(s))[c] == if IsAllowed(c) then multiset(s)[c] else 0
  {
    if s != [] {
      RemoveCounts(s[1..], c);
      assert s == [s[0]] + s[1..];
      assert multiset(s) == multiset{s[0]} + multiset(s[1..]);
    }
  }

  /** The filter works code unit by code unit, so it distributes over concatenation. */
  lemma {:induction false} RemoveConcat(a: Str, b: Str)
    ensures RemoveSpecialCharacters(a + b) == RemoveSpecialCharacters(a) + RemoveSpecialCharacters(b)
  {
    if a != [] {
      assert (a + b)[1..] == a[1..] + b;
      RemoveConcat(a[1..], b);
    } else {
      assert a + b == b;
    }
  }

  /** A string is left unchanged exactly when it holds only allowed code units. */
  lemma {:induction false} RemoveFixedPoint(s: Str)
    ensures RemoveSpecialCharacters(s) == s <==> AllAllowed(s)
  {
    if s != [] && AllAllowed(s) {
      assert AllAllowed(s[1..]) by {
        forall i | 0 <= i < |s[1..]| ensures IsAllowed(s[1..][i]) {
          assert s[1..][i] == s[i + 1];
        }
      }
      RemoveFixedPoint(s[1..]);
      assert [s[0]] + s[1..] == s;
    }
  }

  /** Accented letters and symbols are deleted, not folded: `Niño#1` becomes `Nio1`. */
  lemma RemoveExample()
    ensures RemoveSpecialCharacters(Lit("Niño#1")) == Lit("Nio1")
  {
  }

  /** Cleaning twice is the same as cleaning once. */
  lemma RemoveIdempotent(s: Str)
    ensures RemoveSpecialCharacters(RemoveSpecialCharacters(s)) == RemoveSpecialCharacters(s)
  {
    RemoveFixedPoint(RemoveSpecialCharacters(s));
  }

  // ---------------------------------------------------------------------
  // The worksheet and the cleaning loop of handleFile
  // ---------------------------------------------------------------------

  /**
   * A worksheet entry as the loop sees it: an object whose `v` is a string;
   * anything else on which reading `.v` does not throw, which the model does
   * not inspect — an object whose `v` is a number, boolean, date or absent,
   * and also a primitive entry (number, string, boolean), whose `.v` reads as
   * `undefined`; or `undefined` or `null`, on which reading `.v` throws.
   */
  datatype CellValue = Text(text: Str) | Other(tag: nat) | NoObject

  /** Keys such as `!ref` or `!merges` hold sheet metadata, not cells; `""[0]` is `undefined`, not `!`. */
  predicate IsMetaKey(key: Str)
    ensures key == [] ==> !IsMetaKey(key)
  {
    |key| > 0 && key[0] == Unit('!')
  }

  /** Reading `worksheet[key].v` throws: the key is tested and the entry is `undefined` or `null`. */
  predicate Throws(key: Str, v: CellValue)
    ensures IsMetaKey(key) ==> !Throws(key, v)
    ensures !v.NoObject? ==> !Throws(key, v)
  {
    !IsMetaKey(key) && v.NoObject?
  }

  /** Some entry of the sheet makes the loop throw. */
  predicate SheetThrows(sheet: map<Str, CellValue>)
    ensures !SheetThrows(sheet) ==> forall k | k in sheet && !IsMetaKey(k) :: !sheet[k].NoObject?
    ensures SheetThrows(sheet) ==> exists k | k in sheet :: !IsMetaKey(k) && sheet[k].NoObject?
  {
    exists k | k in sheet :: Throws(k, sheet[k])
  }

  /** What one iteration of the loop, when it does not throw, leaves under `key`. */
  function CleanEntry(key: Str, v: CellValue): (w: CellValue)
    ensures !IsMetaKey(key) && v.Text? ==> w == Text(RemoveSpecialCharacters(v.text))
    ensures IsMetaKey(key) || !v.Text? ==> w == v
  {
    if !IsMetaKey(key) && v.Text? then Text(RemoveSpecialCharacters(v.text)) else v
  }

  /** The worksheet after a loop that runs to its end, as a function of the worksheet before it. */
  function CleanedSheet(sheet: map<Str, CellValue>): (r: map<Str, CellValue>)
    ensures r.Keys == sheet.Keys
    ensures forall k | k in sheet && !IsMetaKey(k) && sheet[k].Text? ::
      r[k] == Text(RemoveSpecialCharacters(sheet[k].text))
    ensures forall k | k in sheet && (IsMetaKey(k) || !sheet[k].Text?) :: r[k] == sheet[k]
  {
    map k | k in sheet :: CleanEntry(k, sheet[k])
  }

  /** After the loop no cell text holds a code unit outside `[a-zA-Z0-9 ]`. */
  lemma CleanedSheetIsClean(sheet: map<Str, CellValue>, k: Str)
    requires k in sheet && !IsMetaKey(k)
    ensures CleanedSheet(sheet)[k].Text? ==> AllAllowed(CleanedSheet(sheet)[k].text)
  {
  }

  /** Loading the cleaned sheet again and cleaning it changes nothing. */
  lemma CleanedSheetIdempotent(sheet: map<Str, CellValue>)
    ensures CleanedSheet(CleanedSheet(sheet)) == CleanedSheet(sheet)
    ensures SheetThrows(CleanedSheet(sheet)) <==> SheetThrows(sheet)
  {
    var once := CleanedSheet(sheet);
    forall k | k in once ensures CleanedSheet(once)[k] == once[k] {
      if !IsMetaKey(k) && sheet[k].Text? {
        RemoveIdempotent(sheet[k].text);
      }
    }
    if SheetThrows(sheet) {
      var k :| k in sheet && Throws(k, sheet[k]);
      assert Throws(k, once[k]);
    }
    if SheetThrows(once) {
      var k :| k in once && Throws(k, once[k]);
      assert Throws(k, sheet[k]);
    }
  }

  /** The worksheet object of the first sheet, whose entries the loop rewrites in place. */
  class Worksheet {
    /** The own enumerable properties of the worksheet object. */
    var cells: map<Str, CellValue>

    constructor (cells: map<Str, CellValue>)
      ensures this.cells == cells
    {
      this.cells := cells;
    }

    /**
     * The `for (const cell in worksheet)` loop: every entry whose key does not
     * start with `!` and whose value is a string gets that string cleaned; the
     * order in which keys are visited does not matter. Reading `.v` of an
     * entry that is `undefined` or `null` throws, which ends the loop with `ok == false`:
     * the entries visited so far stay cleaned, the rest stay as they were, and
     * `handleFile` only logs the error: nothing from this file is exported,
     * though a buffer from an earlier successful load stays downloadable.
     */
    method RemoveSpecialCharactersInPlace() returns (ok: bool)
      modifies this
      ensures ok <==> !SheetThrows(old(cells))
      ensures ok ==> cells == CleanedSheet(old(cells))
      ensures cells.Keys == old(cells).Keys
      ensures forall k | k in cells :: cells[k] == old(cells)[k] || cells[k] == CleanEntry(k, old(cells)[k])
    {
      var todo := cells.Keys;
      while todo != {}
        invariant todo <= cells.Keys
        invariant cells.Keys == old(cells).Keys
        invariant forall k | k in cells && k !in todo :: cells[k] == CleanEntry(k, old(cells)[k])
        invariant forall k | k in cells && k !in todo :: !Throws(k, old(cells)[k])
        invariant forall k | k in todo :: cells[k] == old(cells)[k]
        decreases todo
      {
        var key :| key in todo;
        if Throws(key, cells[key]) {
          return false;
        }
        if !IsMetaKey(key) && cells[key].Text? {
          cells := cells[key := Text(RemoveSpecialCharacters(cells[key].text))];
        }
        todo := todo - {key};
      }
      return true;
    }
  }

  // ---------------------------------------------------------------------
  // s2ab: the binary string of the codec into an ArrayBuffer
  // ---------------------------------------------------------------------

  /** One element of a Uint8Array. */
  newtype Byte = x: int | 0 <= x < 0x100

  /**
   * `c & 0xFF`: the low eight bits of a code unit. On a value in 0..0xFFFF the
   * mask keeps the remainder modulo 256, which is how it is written here.
   */
  function LowByte(c: CodeUnit): (b: Byte)
    ensures b as int == c as int <==> c < 0x100
  {
    (c as int % 0x100) as Byte
  }

  /** The byte sequence s2ab writes: one byte per code unit, the code unit modulo 256. */
  function LowBytes(s: Str): (r: seq<Byte>)
    ensures |r| == |s|
    ensures forall i | 0 <= i < |s| :: r[i] as int == s[i] as int % 0x100
  {
    seq(|s|, i requires 0 <= i < |s| => LowByte(s[i]))
  }

  /**
   * `s2ab`: allocates a buffer of `s.length` bytes and, in a `for` loop,
   * writes `s.charCodeAt(i) & 0xFF` into byte `i`.
   */
  method S2ab(s: Str) returns (buf: array<Byte>)
    ensures fresh(buf)
    ensures buf[..] == LowBytes(s)
  {
    buf := new Byte[|s|];
    for i := 0 to |s|
      invariant forall j | 0 <= j < i :: buf[j] == LowByte(s[j])
    {
      buf[i] := LowByte(s[i]);
    }
  }

  /** The binary string holding the given bytes, one code unit per byte. */
  function BinaryString(bytes: seq<Byte>): (s: Str)
    ensures |s| == |bytes|
    ensures forall i | 0 <= i < |bytes| :: s[i] as int == bytes[i] as int
  {
    seq(|bytes|, i requires 0 <= i < |bytes| => bytes[i] as int as CodeUnit)
  }

  predicate IsBinaryString(s: Str) {
    forall i | 0 <= i < |s| :: s[i] < 0x100
  }

  /** Converting a binary string recovers the bytes it was made of. */
  lemma LowBytesOfBinaryString(bytes: seq<Byte>)
    ensures LowBytes(BinaryString(bytes)) == bytes
  {
  }

  /** s2ab loses nothing exactly when every code unit is below 256. */
  lemma LowBytesLossless(s: Str)
    ensures BinaryString(LowBytes(s)) == s <==> IsBinaryString(s)
  {
  }

  /** The conversion works code unit by code unit. */
  lemma LowBytesConcat(a: Str, b: Str)
    ensures LowBytes(a + b) == LowBytes(a) + LowBytes(b)
  {
  }
}
