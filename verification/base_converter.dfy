/**
 * The numeral-base converter: four text fields (decimal, hexadecimal,
 * binary, octal). Typing into one field rewrites the other three from the
 * integer the typed text denotes.
 */
module BaseConverter {
  import opened Text
  import opened Numerals

  /** The four fields, named by their radix. */
  datatype Base = Dec | Hex | Bin | Oct {
    function Radix(): Numerals.Radix {
      match this
      case Dec => 10
      case Hex => 16
      case Bin => 2
      case Oct => 8
    }
  }

  /** The texts currently shown in the four fields. */
  datatype Converter = Converter(dec: string, hex: string, bin: string, oct: string)

  function Field(c: Converter, b: Base): string {
    match b
    case Dec => c.dec
    case Hex => c.hex
    case Bin => c.bin
    case Oct => c.oct
  }

  /** Keeps the `edited` field and writes `fill(b)` into every other field `b`. */
  function FillOthers(c: Converter, edited: Base, fill: Base -> string): (r: Converter)
    ensures Field(r, edited) == Field(c, edited)
    ensures forall b :: b != edited ==> Field(r, b) == fill(b)
  {
    Converter(
      if edited == Dec then c.dec else fill(Dec),
      if edited == Hex then c.hex else fill(Hex),
      if edited == Bin then c.bin else fill(Bin),
      if edited == Oct then c.oct else fill(Oct))
  }

  /**
   * The input handler of field `edited`, run after the user changed its text:
   * blank text empties the other fields, text `parseInt` rejects changes
   * nothing, and otherwise each other field shows the integer in its own radix.
   */
  function OnInput(c: Converter, edited: Base): (r: Converter)
    ensures Field(r, edited) == Field(c, edited)
    ensures Trim(Field(c, edited)) == "" ==> forall b :: b != edited ==> Field(r, b) == ""
    ensures Trim(Field(c, edited)) != "" && ParseInt(Trim(Field(c, edited)), edited.Radix()).None? ==> r == c
    ensures Trim(Field(c, edited)) != "" && ParseInt(Trim(Field(c, edited)), edited.Radix()).Some? ==>
              forall b :: b != edited ==>
                Field(r, b) == ToRadixString(ParseInt(Trim(Field(c, edited)), edited.Radix()).value, b.Radix())
  {
    var text := Trim(Field(c, edited));
    if text == "" then
      FillOthers(c, edited, (_: Base) => "")
    else
      match ParseInt(text, edited.Radix())
      case None => c
      case Some(n) => FillOthers(c, edited, (b: Base) => ToRadixString(n, b.Radix()))
  }

  /**
   * After a successful conversion every other field parses, in its own radix,
   * back to the integer the edited field denotes.
   */
  lemma OnInputAgrees(c: Converter, edited: Base, other: Base)
    requires other != edited
    requires ParseInt(Trim(Field(c, edited)), edited.Radix()).Some?
    ensures ParseInt(Field(OnInput(c, edited), other), other.Radix())
            == ParseInt(Trim(Field(c, edited)), edited.Radix())
  {
    var n := ParseInt(Trim(Field(c, edited)), edited.Radix()).value;
    ParseToRadixString(n, other.Radix());
  }

  /** Running the handler again on the same field changes nothing more. */
  lemma OnInputIdempotent(c: Converter, edited: Base)
    ensures OnInput(OnInput(c, edited), edited) == OnInput(c, edited)
  {
    var r := OnInput(c, edited);
    var r2 := OnInput(r, edited);
    var t := Trim(Field(c, edited));
    assert Trim(Field(r, edited)) == t;
    if t != "" && ParseInt(t, edited.Radix()).None? {
      assert r == c;
    } else {
      forall b ensures Field(r2, b) == Field(r, b) {
        if b != edited && t != "" {
          var n := ParseInt(t, edited.Radix()).value;
          assert Field(r2, b) == ToRadixString(n, b.Radix()) == Field(r, b);
        }
      }
      FieldsDetermine(r2, r);
    }
  }

  /** Converters showing the same text in every field are equal. */
  lemma FieldsDetermine(c: Converter, d: Converter)
    requires forall b :: Field(c, b) == Field(d, b)
    ensures c == d
  {
    assert Field(c, Dec) == Field(d, Dec) && Field(c, Hex) == Field(d, Hex);
    assert Field(c, Bin) == Field(d, Bin) && Field(c, Oct) == Field(d, Oct);
  }
}
