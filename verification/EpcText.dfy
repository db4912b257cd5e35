/** The canonical form of an EPC: its hexadecimal digits in upper case and nothing else. */
module EpcText {
  import opened Wrappers
  import opened CacheStore
  import HexText

  predicate IsUpperHex(c: char) {
    '0' <= c <= '9' || 'A' <= c <= 'F'
  }

  /** Upper-case every character and keep the hexadecimal digits. */
  function NormalizeEPC(raw: string): EPC
    decreases raw
  {
    if raw == "" then ""
    else
      var c := HexText.ToUpper(raw[0]);
      (if IsUpperHex(c) then [c] else []) + NormalizeEPC(raw[1..])
  }

  predicate Canonical(epc: EPC) {
    forall c | c in epc :: IsUpperHex(c)
  }

  lemma {:induction false} NormalizedIsCanonical(raw: string)
    ensures Canonical(NormalizeEPC(raw))
    decreases raw
  {
    if raw != "" { NormalizedIsCanonical(raw[1..]); }
  }

  lemma {:induction false} CanonicalIsFixed(epc: EPC)
    requires Canonical(epc)
    ensures NormalizeEPC(epc) == epc
    decreases epc
  {
    if epc != "" {
      assert epc[0] in epc;
      assert forall c | c in epc[1..] :: c in epc;
      CanonicalIsFixed(epc[1..]);
    }
  }

  lemma {:induction false} NormalizeConcat(a: string, b: string)
    ensures NormalizeEPC(a + b) == NormalizeEPC(a) + NormalizeEPC(b)
    decreases a
  {
    hide HexText.ToUpper, IsUpperHex;
    if a == "" {
      assert a + b == b;
    } else {
      var c := HexText.ToUpper(a[0]);
      var first := if IsUpperHex(c) then [c] else [];
      assert (a + b)[1..] == a[1..] + b;
      NormalizeConcat(a[1..], b);
      assert NormalizeEPC(a + b) == first + (NormalizeEPC(a[1..]) + NormalizeEPC(b));
    }
  }

  /** Wherever it stands, a character that is no hexadecimal digit is dropped and a digit kept, in
      upper case. */
  lemma DigitsKept(a: string, c: char, b: string)
    ensures NormalizeEPC(a + [c] + b)
         == NormalizeEPC(a) + (if HexText.DigitValue(c).Some? then [HexText.ToUpper(c)] else []) + NormalizeEPC(b)
  {
    NormalizeConcat(a + [c], b);
    NormalizeConcat(a, [c]);
    assert NormalizeEPC([c][1..]) == "";
  }

  /** Lower-case digits give the same key as upper-case ones. */
  lemma {:induction false} CaseIsIgnored(data: seq<byte>)
    ensures NormalizeEPC(HexText.EncodeToString(data)) == HexText.HexUpper(data)
    decreases data
  {
    hide HexText.EncodeByte, NormalizeEPC;
    if data == [] {
      assert NormalizeEPC("") == "" by { NothingNormalized(); }
    } else {
      var code := HexText.EncodeByte(data[0]);
      NormalizeConcat(code, HexText.EncodeToString(data[1..]));
      CaseIsIgnored(data[1..]);
      ByteNormalized(data[0]);
      assert HexText.HexUpper(data) == HexText.MapChars(HexText.ToUpper, code) + HexText.HexUpper(data[1..]);
    }
  }

  lemma NothingNormalized()
    ensures NormalizeEPC("") == ""
  {
  }

  lemma ByteNormalized(b: byte)
    ensures NormalizeEPC(HexText.EncodeByte(b)) == HexText.MapChars(HexText.ToUpper, HexText.EncodeByte(b))
  {
    hide Val, HexText.LowerDigit;
    var (h, l) := (HexText.LowerDigit(Val(b) / 16), HexText.LowerDigit(Val(b) % 16));
    HexText.DigitInverse(Val(b) / 16);
    HexText.DigitInverse(Val(b) % 16);
    DigitsKept("", h, [l]);
    DigitsKept("", l, "");
    assert "" + [h] + [l] == [h, l] && "" + [l] + "" == [l];
  }

  /** The key under which the SDK reports a tag is already canonical, so tags of different
      bytes keep different keys all the way to the cache. */
  lemma SdkKeysSurvive(a: seq<byte>, b: seq<byte>)
    ensures NormalizeEPC(HexText.HexUpper(a)) == HexText.HexUpper(a)
    ensures NormalizeEPC(HexText.HexUpper(a)) == NormalizeEPC(HexText.HexUpper(b)) ==> a == b
  {
    HexIsCanonical(a);
    HexIsCanonical(b);
    CanonicalIsFixed(HexText.HexUpper(a));
    CanonicalIsFixed(HexText.HexUpper(b));
    if HexText.HexUpper(a) == HexText.HexUpper(b) { HexText.HexUpperInjective(a, b); }
  }

  lemma {:induction false} HexIsCanonical(data: seq<byte>)
    ensures Canonical(HexText.HexUpper(data))
    decreases data
  {
    hide HexText.EncodeByte;
    if data != [] {
      ByteIsCanonical(data[0]);
      HexIsCanonical(data[1..]);
      var code := HexText.EncodeByte(data[0]);
      assert HexText.HexUpper(data) == HexText.MapChars(HexText.ToUpper, code) + HexText.HexUpper(data[1..]);
    }
  }

  lemma ByteIsCanonical(b: byte)
    ensures Canonical(HexText.MapChars(HexText.ToUpper, HexText.EncodeByte(b)))
  {
    hide Val;
  }

  /** The usable entries of a list, normalized and without repetitions. */
  function NormalizedSet(values: seq<string>): set<EPC> {
    set v | v in values && NormalizeEPC(v) != "" :: NormalizeEPC(v)
  }

  predicate NoRepeats(xs: seq<EPC>) {
    forall i, j | 0 <= i < j < |xs| :: xs[i] != xs[j]
  }

  method NormalizeEPCList(values: seq<string>) returns (out: seq<EPC>)
    ensures NoRepeats(out) && (set e | e in out) == NormalizedSet(values)
  {
    hide NormalizeEPC;
    var uniq: set<EPC> := {};
    out := [];
    for k := 0 to |values|
      invariant NoRepeats(out) && uniq == (set e | e in out) == NormalizedSet(values[..k])
    {
      var epc := NormalizeEPC(values[k]);
      assert values[..k + 1] == values[..k] + [values[k]];
      assert NormalizedSet(values[..k + 1]) == NormalizedSet(values[..k]) + (if epc == "" then {} else {epc});
      if epc == "" || epc in uniq {
        continue;
      }
      uniq := uniq + {epc};
      out := out + [epc];
    }
    assert values[..|values|] == values;
  }
}
