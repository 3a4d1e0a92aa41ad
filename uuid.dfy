/**
 * The UUID generator widget: the version-4 template fill (layout of
 * section 4.4 of RFC 4122, variant bits of section 4.1.1), the four output
 * formats, bulk generation, the capped history and the CSV export.
 */
module Uuid {
  import opened Chars
  import opened Strings
  import opened Random

  /** The version-4 template: `x` is any hex digit, `y` the variant digit. */
  const Template: string := "xxxxxxxx-xxxx-4xxx-yxxx-xxxxxxxxxxxx"

  /** Random draws one fill of the template consumes (one per `x` or `y`). */
  const DrawsPerUuid: nat := 31

  predicate IsLowerHex(c: char) { IsDigit(c) || 'a' <= c <= 'f' }

  /** The variant digits `10xx` in binary: 8, 9, a, b. */
  predicate IsVariant(c: char) { c == '8' || c == '9' || c == 'a' || c == 'b' }

  /** Number of `x` and `y` placeholders in `t`. */
  function Draws(t: string): nat
  {
    if t == [] then 0 else (if t[0] == 'x' || t[0] == 'y' then 1 else 0) + Draws(t[1..])
  }

  /**
   * `t.replace(/[xy]/g, c => ...)`: each placeholder draws the next random
   * nibble `r`; `x` becomes `r`, `y` becomes `(r & 0x3) | 0x8`, both as
   * lowercase hex. Other characters are kept.
   */
  function Fill(t: string, rand: Oracle, k: nat): (u: string)
    ensures |u| == |t|
    ensures forall i :: 0 <= i < |t| && t[i] == 'x' ==> IsLowerHex(u[i])
    ensures forall i :: 0 <= i < |t| && t[i] == 'y' ==> IsVariant(u[i])
    ensures forall i :: 0 <= i < |t| && t[i] != 'x' && t[i] != 'y' ==> u[i] == t[i]
  {
    if t == [] then []
    else if t[0] == 'x' then [DigitChar(Pick(rand, k, 16))] + Fill(t[1..], rand, k + 1)
    else if t[0] == 'y' then
      var r := Pick(rand, k, 16);
      var v := DigitChar(r % 4 + 8);
      assert IsVariant(v) by {
        assert r % 4 + 8 == 8 || r % 4 + 8 == 9 || r % 4 + 8 == 10 || r % 4 + 8 == 11;
      }
      [v] + Fill(t[1..], rand, k + 1)
    else [t[0]] + Fill(t[1..], rand, k)
  }

  /** `generateV4UUID`, drawing from the oracle from call `k` on. */
  function GenerateV4(rand: Oracle, k: nat): string
  {
    Fill(Template, rand, k)
  }

  predicate IsHyphenPosition(i: int) { i == 8 || i == 13 || i == 18 || i == 23 }

  /** The canonical textual form of a version-4, variant-1 UUID, lowercase. */
  predicate IsV4(u: string)
  {
    && |u| == 36
    && (forall i :: 0 <= i < 36 && IsHyphenPosition(i) ==> u[i] == '-')
    && u[14] == '4'
    && IsVariant(u[19])
    && (forall i :: 0 <= i < 36 && !IsHyphenPosition(i) && i != 14 && i != 19 ==> IsLowerHex(u[i]))
  }

  /** Every fill of the template is a canonical version-4 UUID. */
  lemma V4Shape(rand: Oracle, k: nat)
    ensures IsV4(GenerateV4(rand, k))
  {
    TemplateChars();
  }

  /** The character the template holds at position `i`. */
  function TemplateAt(i: nat): char
  {
    if IsHyphenPosition(i) then '-' else if i == 14 then '4' else if i == 19 then 'y' else 'x'
  }

  lemma TemplateChars()
    ensures |Template| == 36
    ensures forall i :: 0 <= i < 36 ==> Template[i] == TemplateAt(i)
  {
    var p, q := "xxxxxxxx-xxxx-4xxx", "-yxxx-xxxxxxxxxxxx";
    assert Template == p + q;
    TemplateFront();
    TemplateBack();
    assert forall i :: 18 <= i < 36 ==> Template[i] == q[i - 18];
  }

  lemma TemplateFront()
    ensures forall i :: 0 <= i < 18 ==> "xxxxxxxx-xxxx-4xxx"[i] == TemplateAt(i)
  {
  }

  lemma TemplateBack()
    ensures forall i :: 0 <= i < 18 ==> "-yxxx-xxxxxxxxxxxx"[i] == TemplateAt(i + 18)
  {
  }

  lemma {:induction false} DrawsConcat(a: string, b: string)
    ensures Draws(a + b) == Draws(a) + Draws(b)
  {
    if a != [] {
      assert (a + b)[1..] == a[1..] + b;
      DrawsConcat(a[1..], b);
    } else {
      assert a + b == b;
    }
  }

  lemma DrawsHead() ensures Draws("xxxxxxxx-xxxx") == 12 {}
  lemma DrawsMiddle() ensures Draws("-4xxx-yxxx-") == 7 {}
  lemma DrawsTail() ensures Draws("xxxxxxxxxxxx") == 12 {}

  /** One fill of the template consumes 31 draws. */
  lemma TemplateDraws()
    ensures Draws(Template) == DrawsPerUuid
  {
    var p, q, r := "xxxxxxxx-xxxx", "-4xxx-yxxx-", "xxxxxxxxxxxx";
    assert Template == p + (q + r);
    DrawsHead();
    DrawsMiddle();
    DrawsTail();
    DrawsConcat(q, r);
    DrawsConcat(p, q + r);
  }

  // ---------------------------------------------------------------------
  // formatUUID

  datatype Format = Default | Uppercase | NoHyphens | UpperNoHyphens

  /** `uuid.replace(/-/g, "")`. */
  function RemoveHyphens(u: string): (r: string)
    ensures |r| == |u| - Count(u, '-')
    ensures '-' !in r
  {
    ReplaceCharRemoves(u, '-');
    ReplaceCharLength(u, '-', "");
    ReplaceChar(u, '-', "")
  }

  lemma {:induction false} ReplaceCharRemoves(s: string, c: char)
    ensures c !in ReplaceChar(s, c, "")
  {
    if s != [] {
      ReplaceCharRemoves(s[1..], c);
    }
  }

  /** `formatUUID`. */
  function FormatUuid(u: string, f: Format): string
  {
    match f
    case Uppercase => Upper(u)
    case NoHyphens => RemoveHyphens(u)
    case UpperNoHyphens => Upper(RemoveHyphens(u))
    case Default => u
  }

  lemma {:induction false} ReplaceCharConcat(a: string, b: string, c: char, r: string)
    ensures ReplaceChar(a + b, c, r) == ReplaceChar(a, c, r) + ReplaceChar(b, c, r)
  {
    if a != [] {
      assert (a + b)[1..] == a[1..] + b;
      ReplaceCharConcat(a[1..], b, c, r);
    } else {
      assert a + b == b;
    }
  }

  /** The 32 hex digits of a UUID, without its hyphens. */
  function Digits(u: string): string
    requires |u| == 36
  {
    u[..8] + u[9..13] + u[14..18] + u[19..23] + u[24..]
  }

  /** `h` with hyphens put back at the canonical places. */
  function Hyphenate(h: string): string
    requires |h| == 32
  {
    h[..8] + "-" + h[8..12] + "-" + h[12..16] + "-" + h[16..20] + "-" + h[20..]
  }

  /** Removing the hyphens from `s` whose first hyphen is at `n`. */
  lemma {:induction false} Strip(s: string, n: nat)
    requires n < |s| && s[n] == '-' && forall i :: 0 <= i < n ==> s[i] != '-'
    ensures ReplaceChar(s, '-', "") == s[..n] + ReplaceChar(s[n + 1..], '-', "")
  {
    if n > 0 {
      Strip(s[1..], n - 1);
      assert s[1..][n..] == s[n + 1..];
      assert s[..n] == [s[0]] + s[1..][..n - 1];
    }
  }

  lemma RemoveHyphensV4(u: string)
    requires IsV4(u)
    ensures RemoveHyphens(u) == Digits(u)
  {
    V4Hyphens(u);
    var a, b, c, d, e := u[..8], u[9..13], u[14..18], u[19..23], u[24..];
    assert '-' !in e;
    ReplaceCharAbsent(e, '-', "");
    HyphenSegment(u, 19, 23);
    HyphenSegment(u, 14, 18);
    HyphenSegment(u, 9, 13);
    HyphenSegment(u, 0, 8);
    assert u[0..] == u;
    assert RemoveHyphens(u) == a + (b + (c + (d + e)));
    assert a + (b + (c + (d + e))) == a + b + c + d + e;
  }

  /** Hyphens stand exactly at the four canonical places. */
  ghost predicate HyphensOnlyAt(u: string)
  {
    |u| == 36 && forall i :: 0 <= i < 36 ==> (u[i] == '-' <==> IsHyphenPosition(i))
  }

  lemma V4Hyphens(u: string)
    requires IsV4(u)
    ensures HyphensOnlyAt(u)
  {
  }

  /** Removing hyphens from a suffix that starts a hyphen-free segment. */
  lemma HyphenSegment(u: string, a: nat, b: nat)
    requires HyphensOnlyAt(u) && a <= b < 36 && IsHyphenPosition(b)
    requires forall i :: a <= i < b ==> !IsHyphenPosition(i)
    ensures ReplaceChar(u[a..], '-', "") == u[a..b] + ReplaceChar(u[b + 1..], '-', "")
  {
    var s := u[a..];
    forall i | 0 <= i < b - a ensures s[i] != '-' {
      assert s[i] == u[a + i] && !IsHyphenPosition(a + i);
    }
    assert s[b - a] == u[b];
    Strip(s, b - a);
    assert s[..b - a] == u[a..b] && s[b - a + 1..] == u[b + 1..];
  }

  /** For a version-4 UUID, `nohyphens` keeps exactly the 32 digits in
      order, and putting the hyphens back gives the UUID again. */
  lemma NoHyphensDigits(u: string)
    requires IsV4(u)
    ensures FormatUuid(u, NoHyphens) == Digits(u)
    ensures |FormatUuid(u, NoHyphens)| == 32
    ensures Hyphenate(FormatUuid(u, NoHyphens)) == u
  {
    RemoveHyphensV4(u);
    var h := Digits(u);
    assert h[..8] == u[..8] && h[8..12] == u[9..13] && h[12..16] == u[14..18];
    assert h[16..20] == u[19..23] && h[20..] == u[24..];
    assert u == u[..8] + "-" + u[9..13] + "-" + u[14..18] + "-" + u[19..23] + "-" + u[24..];
  }

  /** `uppercase` changes only the hex letters, so lowercasing gives a
      version-4 UUID back; `uppernohyphens` is `nohyphens` uppercased. */
  lemma UppercaseFormats(u: string)
    requires IsV4(u)
    ensures Lower(FormatUuid(u, Uppercase)) == u
    ensures forall i :: 0 <= i < 36 ==> !IsLower(FormatUuid(u, Uppercase)[i])
    ensures FormatUuid(u, UpperNoHyphens) == Upper(FormatUuid(u, NoHyphens))
    ensures Lower(FormatUuid(u, UpperNoHyphens)) == Digits(u)
  {
    var w := Upper(u);
    forall i | 0 <= i < 36 ensures ToLower(w[i]) == u[i] {
      assert !IsUpper(u[i]);
    }
    NoHyphensDigits(u);
    var h := Digits(u);
    forall i | 0 <= i < 32 ensures ToLower(ToUpper(h[i])) == h[i] {
      assert h[i] in u;
    }
  }

  // ---------------------------------------------------------------------
  // Bulk generation, history, count clamp and CSV

  /** `Array.from({ length: count }, ...)`: `count` fills in a row, each one
      formatted; the i-th consumes draws `k + 31i` to `k + 31i + 30`. */
  function Batch(count: nat, f: Format, rand: Oracle, k: nat): (us: seq<string>)
    ensures |us| == count
  {
    seq(count, i requires 0 <= i < count => FormatUuid(GenerateV4(rand, k + DrawsPerUuid * i), f))
  }

  /** `s` is some version-4 UUID in format `f`. */
  ghost predicate IsFormattedV4(s: string, f: Format)
  {
    exists u :: IsV4(u) && s == FormatUuid(u, f)
  }

  lemma FormattedV4(rand: Oracle, j: nat, f: Format)
    ensures IsV4(GenerateV4(rand, j))
    ensures |FormatUuid(GenerateV4(rand, j), NoHyphens)| == 32
  {
    V4Shape(rand, j);
    NoHyphensDigits(GenerateV4(rand, j));
  }

  /** Every generated value is a formatted version-4 UUID: in the default
      format canonical, without hyphens its 32 digits. */
  lemma BatchShape(count: nat, f: Format, rand: Oracle, k: nat)
    ensures forall i :: 0 <= i < count ==> IsFormattedV4(Batch(count, f, rand, k)[i], f)
    ensures f == Default ==> forall i :: 0 <= i < count ==> IsV4(Batch(count, f, rand, k)[i])
    ensures f == NoHyphens ==> forall i :: 0 <= i < count ==> |Batch(count, f, rand, k)[i]| == 32
  {
    forall i | 0 <= i < count
      ensures IsFormattedV4(Batch(count, f, rand, k)[i], f)
      ensures f == Default ==> IsV4(Batch(count, f, rand, k)[i])
      ensures f == NoHyphens ==> |Batch(count, f, rand, k)[i]| == 32
    {
      BatchElement(count, f, rand, k, i);
    }
  }

  lemma BatchElement(count: nat, f: Format, rand: Oracle, k: nat, i: nat)
    requires i < count
    ensures var s := Batch(count, f, rand, k)[i];
      && IsFormattedV4(s, f)
      && (f == Default ==> IsV4(s))
      && (f == NoHyphens ==> |s| == 32)
  {
    var j := k + DrawsPerUuid * i;
    var g := GenerateV4(rand, j);
    assert Batch(count, f, rand, k)[i] == FormatUuid(g, f);
    FormattedV4(rand, j, f);
    Witness(g, f);
  }

  lemma Witness(u: string, f: Format)
    requires IsV4(u)
    ensures IsFormattedV4(FormatUuid(u, f), f)
  {
  }

  /** A history record (`GeneratedUUID`); v1 is not part of this model, so the
      version is always "v4". */
  datatype Record = Record(value: string, timestamp: int, version: string)

  const HistoryCap: nat := 10

  /** `[entry, ...prev].slice(0, 10)`. */
  function PushHistory(prev: seq<Record>, entry: Record): (h: seq<Record>)
    ensures |h| == if |prev| < HistoryCap then |prev| + 1 else HistoryCap
    ensures h[0] == entry
    ensures h[1..] == prev[..|h| - 1]
  {
    ([entry] + prev)[..if |prev| < HistoryCap then |prev| + 1 else HistoryCap]
  }

  /** The history is not de-duplicated: pushing a value already present
      keeps the older record too, unless the cap drops it. */
  lemma PushKeepsDuplicates(prev: seq<Record>, entry: Record)
    requires |prev| < HistoryCap && entry in prev
    ensures multiset(PushHistory(prev, entry))[entry] == multiset(prev)[entry] + 1
  {
    assert PushHistory(prev, entry) == [entry] + prev;
  }

  /** `Math.min(100, Math.max(1, value))`. */
  function ClampCount(v: int): (c: int)
    ensures 1 <= c <= 100
    ensures 1 <= v <= 100 ==> c == v
    ensures v < 1 ==> c == 1
    ensures v > 100 ==> c == 100
  {
    if v < 1 then 1 else if v > 100 then 100 else v
  }

  const CsvHeader: string := "UUID,Version,Timestamp"

  function CsvLines(uuids: seq<string>, version: string, stamp: string): (ls: seq<string>)
    ensures |ls| == |uuids|
    ensures forall i :: 0 <= i < |ls| ==> ls[i] == uuids[i] + "," + version + "," + stamp
  {
    seq(|uuids|, i requires 0 <= i < |uuids| => uuids[i] + "," + version + "," + stamp)
  }

  /** The CSV download: the header, a line break, then one line per UUID. */
  function Csv(uuids: seq<string>, version: string, stamp: string): string
  {
    CsvHeader + "\n" + Join(CsvLines(uuids, version, stamp), "\n")
  }

  lemma LineFields(a: string, b: string, c: string)
    requires ',' !in a && ',' !in b && ',' !in c
    requires '\n' !in a && '\n' !in b && '\n' !in c
    ensures Split(a + "," + b + "," + c, ',') == [a, b, c]
    ensures '\n' !in a + "," + b + "," + c
  {
    var t2 := [','] + c;
    var t1 := [','] + (b + t2);
    assert a + "," + b + "," + c == a + t1;
    assert Split(c, ',') == [c] by {
      SplitPrefix(c, "", ',');
      assert c + "" == c;
    }
    assert Split(t2, ',') == [""] + [c] by {
      assert t2[0] == ',' && t2[1..] == c;
    }
    assert Split(b + t2, ',') == [b, c] by {
      SplitPrefix(b, t2, ',');
      assert b + "" == b;
    }
    assert Split(t1, ',') == [""] + [b, c] by {
      assert t1[0] == ',' && t1[1..] == b + t2;
    }
    SplitPrefix(a, t1, ',');
    assert a + "" == a;
  }

  /** Reading the CSV back line by line gives the header and then, for each
      UUID in order, its line with the UUID in the first column. */
  lemma CsvRoundTrip(uuids: seq<string>, version: string, stamp: string)
    requires |uuids| >= 1
    requires forall i :: 0 <= i < |uuids| ==> '\n' !in uuids[i] && ',' !in uuids[i]
    requires '\n' !in version && '\n' !in stamp && ',' !in version && ',' !in stamp
    ensures Split(Csv(uuids, version, stamp), '\n') == [CsvHeader] + CsvLines(uuids, version, stamp)
    ensures forall i :: 0 <= i < |uuids| ==>
      Split(CsvLines(uuids, version, stamp)[i], ',') == [uuids[i], version, stamp]
  {
    var ls := CsvLines(uuids, version, stamp);
    forall i | 0 <= i < |ls| ensures '\n' !in ls[i] && Split(ls[i], ',') == [uuids[i], version, stamp] {
      LineFields(uuids[i], version, stamp);
      assert ls[i] == uuids[i] + "," + version + "," + stamp;
    }
    assert '\n' !in CsvHeader;
    var parts := [CsvHeader] + ls;
    assert NoneContains(parts, '\n');
    assert Join(parts, "\n") == CsvHeader + "\n" + Join(ls, "\n");
    SplitJoin(parts, '\n');
  }

  /** The widget's state: the last batch, the count, the format and the
      history of batches (the persisted copy in `localStorage` is not part of
      this model). */
  class Generator {
    var uuids: seq<string>
    var count: int
    var format: Format
    var history: seq<Record>

    predicate Valid()
      reads this
    {
      1 <= count <= 100
    }

    constructor(saved: seq<Record>)
      ensures Valid()
      ensures uuids == [] && count == 1 && format == Default && history == saved
    {
      uuids := [];
      count := 1;
      format := Default;
      history := saved;
    }

    /** The count input: the typed number clamped to [1, 100]. */
    method SetCount(v: int)
      modifies this
      ensures Valid()
      ensures count == ClampCount(v)
      ensures uuids == old(uuids) && format == old(format) && history == old(history)
    {
      count := ClampCount(v);
    }

    /** `generateUuids` with the v4 generator: `count` new values, and a
        history record of the first one in front, the history capped at 10. */
    method GenerateUuids(rand: Oracle, k: nat, now: int) returns (next: nat)
      requires Valid()
      modifies this
      ensures Valid() && count == old(count) && format == old(format)
      ensures uuids == Batch(count, format, rand, k)
      ensures |uuids| == count
      ensures next == k + DrawsPerUuid * count
      ensures history == PushHistory(old(history), Record(uuids[0], now, "v4"))
      ensures |history| <= HistoryCap
    {
      uuids := Batch(count, format, rand, k);
      history := PushHistory(history, Record(uuids[0], now, "v4"));
      next := k + DrawsPerUuid * count;
    }
  }
}
