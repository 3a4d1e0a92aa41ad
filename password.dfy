/**
 * The password generator: the character table, charset assembly from the
 * option flags, one guaranteed character per enabled class, the fill loop,
 * the shuffle, the strength score, and the length bounds of the options.
 */
module Password {
  import opened Chars
  import opened Random

  const UppercaseUnambiguous: string := "ABCDEFGHJKLMNPQRSTUVWXYZ"
  const UppercaseAll: string := "ABCDEFGHIJKLMNOPQRSTUVWXYZ"
  const LowercaseUnambiguous: string := "abcdefghjkmnpqrstuvwxyz"
  const LowercaseAll: string := "abcdefghijklmnopqrstuvwxyz"
  const NumbersUnambiguous: string := "23456789"
  const NumbersAll: string := "0123456789"
  const Symbols: string := "!@#$%^&*()_+-=[]{}|;:,.<>?"

  const NoClassMessage: string := "Please select at least one character type"

  datatype Options = Options(
    length: int, minLength: int, maxLength: int,
    uppercase: bool, lowercase: bool, numbers: bool, symbols: bool,
    excludeAmbiguous: bool)

  const DefaultOptions: Options := Options(16, 8, 64, true, true, true, true, false)

  /** The class `[^A-Za-z0-9]`. */
  predicate IsOther(c: char) { !IsUpper(c) && !IsLower(c) && !IsDigit(c) }

  /** The uppercase alphabet in use; the reduced one has no `I` or `O`. */
  function UpperAlphabet(exclude: bool): (a: string)
    ensures |a| > 0 && forall i :: 0 <= i < |a| ==> IsUpper(a[i])
    ensures exclude ==> 'I' !in a && 'O' !in a
    ensures !exclude ==> forall c :: IsUpper(c) ==> c in a
  {
    UppercaseTables();
    if exclude then UppercaseUnambiguous else UppercaseAll
  }

  /** The lowercase alphabet in use; the reduced one has no `i`, `l` or `o`. */
  function LowerAlphabet(exclude: bool): (a: string)
    ensures |a| > 0 && forall i :: 0 <= i < |a| ==> IsLower(a[i])
    ensures exclude ==> 'i' !in a && 'l' !in a && 'o' !in a
    ensures !exclude ==> forall c :: IsLower(c) ==> c in a
  {
    LowercaseTables();
    if exclude then LowercaseUnambiguous else LowercaseAll
  }

  /** The digit alphabet in use; the reduced one has no `0` or `1`. */
  function DigitAlphabet(exclude: bool): (a: string)
    ensures |a| > 0 && forall i :: 0 <= i < |a| ==> IsDigit(a[i])
    ensures exclude ==> '0' !in a && '1' !in a
    ensures !exclude ==> forall c :: IsDigit(c) ==> c in a
  {
    NumberTables();
    if exclude then NumbersUnambiguous else NumbersAll
  }

  /** A string holding the consecutive code points from `lo` on holds every
      character of that range. */
  lemma Consecutive(a: string, lo: int)
    requires forall i :: 0 <= i < |a| ==> a[i] as int == lo + i
    ensures forall c: char :: lo <= c as int < lo + |a| ==> c in a
  {
    forall c: char | lo <= c as int < lo + |a|
      ensures c in a
    {
      assert a[c as int - lo] == c;
    }
  }

  lemma UppercaseTables()
    ensures |UppercaseUnambiguous| > 0
    ensures forall i :: 0 <= i < |UppercaseUnambiguous| ==>
      IsUpper(UppercaseUnambiguous[i]) && UppercaseUnambiguous[i] != 'I' && UppercaseUnambiguous[i] != 'O'
    ensures forall i :: 0 <= i < |UppercaseAll| ==> IsUpper(UppercaseAll[i])
    ensures forall c :: IsUpper(c) ==> c in UppercaseAll
  {
    assert |UppercaseAll| == 26 && forall i :: 0 <= i < 26 ==> UppercaseAll[i] as int == 'A' as int + i;
    Consecutive(UppercaseAll, 'A' as int);
  }

  lemma LowercaseTables()
    ensures |LowercaseUnambiguous| > 0
    ensures forall i :: 0 <= i < |LowercaseUnambiguous| ==>
      && IsLower(LowercaseUnambiguous[i])
      && LowercaseUnambiguous[i] != 'i' && LowercaseUnambiguous[i] != 'l' && LowercaseUnambiguous[i] != 'o'
    ensures forall i :: 0 <= i < |LowercaseAll| ==> IsLower(LowercaseAll[i])
    ensures forall c :: IsLower(c) ==> c in LowercaseAll
  {
    assert |LowercaseAll| == 26 && forall i :: 0 <= i < 26 ==> LowercaseAll[i] as int == 'a' as int + i;
    Consecutive(LowercaseAll, 'a' as int);
  }

  lemma NumberTables()
    ensures |NumbersUnambiguous| > 0
    ensures forall i :: 0 <= i < |NumbersUnambiguous| ==>
      IsDigit(NumbersUnambiguous[i]) && NumbersUnambiguous[i] != '0' && NumbersUnambiguous[i] != '1'
    ensures forall i :: 0 <= i < |NumbersAll| ==> IsDigit(NumbersAll[i])
    ensures forall c :: IsDigit(c) ==> c in NumbersAll
  {
    assert |NumbersAll| == 10 && forall i :: 0 <= i < 10 ==> NumbersAll[i] as int == '0' as int + i;
    Consecutive(NumbersAll, '0' as int);
  }

  lemma SymbolsAreOther()
    ensures |Symbols| > 0 && forall i :: 0 <= i < |Symbols| ==> IsOther(Symbols[i])
  {
  }

  /** The enabled classes' alphabets, concatenated in the order upper,
      lower, digits, symbols. */
  function Charset(o: Options): (cs: string)
    ensures cs == [] <==> !o.uppercase && !o.lowercase && !o.numbers && !o.symbols
    ensures forall c :: c in cs <==>
      || (o.uppercase && c in UpperAlphabet(o.excludeAmbiguous))
      || (o.lowercase && c in LowerAlphabet(o.excludeAmbiguous))
      || (o.numbers && c in DigitAlphabet(o.excludeAmbiguous))
      || (o.symbols && c in Symbols)
  {
    (if o.uppercase then UpperAlphabet(o.excludeAmbiguous) else "")
    + (if o.lowercase then LowerAlphabet(o.excludeAmbiguous) else "")
    + (if o.numbers then DigitAlphabet(o.excludeAmbiguous) else "")
    + (if o.symbols then Symbols else "")
  }

  /** The number of enabled classes. */
  function ClassCount(o: Options): (n: nat)
    ensures n <= 4 && (n == 0 <==> Charset(o) == [])
  {
    (if o.uppercase then 1 else 0) + (if o.lowercase then 1 else 0)
    + (if o.numbers then 1 else 0) + (if o.symbols then 1 else 0)
  }

  predicate HasCharOf(pwd: string, p: char -> bool)
  {
    exists i :: 0 <= i < |pwd| && p(pwd[i])
  }

  predicate HasCharIn(pwd: string, alphabet: string)
  {
    exists i :: 0 <= i < |pwd| && pwd[i] in alphabet
  }

  /** What every generated password satisfies: its length is the larger of
      the requested length and the number of classes, all its characters are
      in the charset, and it has a character of each enabled class. */
  predicate WellFormed(o: Options, pwd: string)
  {
    && |pwd| == (if o.length > ClassCount(o) then o.length else ClassCount(o))
    && (forall i :: 0 <= i < |pwd| ==> pwd[i] in Charset(o))
    && HasEnabledClasses(o, pwd)
  }

  /** `sort(() => Math.random() - 0.5)`: some reordering. Modelled as drawing
      the next character from the remaining ones with the oracle. */
  method Shuffle(s: string, rand: Oracle, k: nat) returns (t: string, next: nat)
    ensures multiset(t) == multiset(s)
    ensures next >= k
  {
    var rest := s;
    t := "";
    next := k;
    while rest != []
      invariant multiset(t) + multiset(rest) == multiset(s)
      invariant next >= k
      decreases |rest|
    {
      var i := Pick(rand, next, |rest|);
      next := next + 1;
      assert rest == rest[..i] + [rest[i]] + rest[i + 1..];
      t := t + [rest[i]];
      rest := rest[..i] + rest[i + 1..];
    }
  }

  /** A reordering keeps the length, the characters drawn from an
      alphabet, and the presence of a character of an alphabet. */
  lemma ShuffleKeeps(s: string, t: string, a: string)
    requires multiset(t) == multiset(s)
    ensures |t| == |s|
    ensures HasCharIn(s, a) ==> HasCharIn(t, a)
    ensures (forall i :: 0 <= i < |s| ==> s[i] in a) ==> forall i :: 0 <= i < |t| ==> t[i] in a
  {
    assert |t| == |multiset(t)| == |multiset(s)| == |s|;
    if HasCharIn(s, a) {
      var i :| 0 <= i < |s| && s[i] in a;
      assert s[i] in multiset(t);
      var j :| 0 <= j < |t| && t[j] == s[i];
    }
    if forall i :: 0 <= i < |s| ==> s[i] in a {
      forall j | 0 <= j < |t| ensures t[j] in a {
        assert t[j] in multiset(s);
      }
    }
  }

  /** Whether `s` has a character of each enabled class. */
  predicate HasEnabledClasses(o: Options, s: string)
  {
    && (o.uppercase ==> HasCharIn(s, UpperAlphabet(o.excludeAmbiguous)))
    && (o.lowercase ==> HasCharIn(s, LowerAlphabet(o.excludeAmbiguous)))
    && (o.numbers ==> HasCharIn(s, DigitAlphabet(o.excludeAmbiguous)))
    && (o.symbols ==> HasCharIn(s, Symbols))
  }

  lemma HasCharAppend(s: string, c: char, a: string)
    ensures HasCharIn(s, a) ==> HasCharIn(s + [c], a)
    ensures c in a ==> HasCharIn(s + [c], a)
  {
    if HasCharIn(s, a) {
      var i :| 0 <= i < |s| && s[i] in a;
      assert (s + [c])[i] == s[i];
    }
    assert (s + [c])[|s|] == c;
  }

  /** Appending any character keeps every enabled class present. */
  lemma ClassesAppend(o: Options, s: string, c: char)
    requires HasEnabledClasses(o, s)
    ensures HasEnabledClasses(o, s + [c])
  {
    HasCharAppend(s, c, UpperAlphabet(o.excludeAmbiguous));
    HasCharAppend(s, c, LowerAlphabet(o.excludeAmbiguous));
    HasCharAppend(s, c, DigitAlphabet(o.excludeAmbiguous));
    HasCharAppend(s, c, Symbols);
  }

  /** Appends one character drawn from alphabet `a`. */
  method DrawFrom(g: string, a: string, cs: string, rand: Oracle, k: nat) returns (g': string, next: nat)
    requires |a| > 0 && forall c :: c in a ==> c in cs
    ensures |g'| == |g| + 1 && g'[..|g|] == g && g'[|g|] in a
    ensures (forall j :: 0 <= j < |g| ==> g[j] in cs) ==> forall j :: 0 <= j < |g'| ==> g'[j] in cs
    ensures HasCharIn(g', a)
    ensures forall b :: HasCharIn(g, b) ==> HasCharIn(g', b)
    ensures next == k + 1
  {
    var c := a[Pick(rand, k, |a|)];
    HasCharAppend(g, c, a);
    forall b | HasCharIn(g, b) ensures HasCharIn(g + [c], b) {
      HasCharAppend(g, c, b);
    }
    g' := g + [c];
    next := k + 1;
  }

  /** The guaranteed characters: one drawn from each enabled class, in the
      order upper, lower, digits, symbols. */
  method Guaranteed(o: Options, rand: Oracle, k: nat) returns (g: string, next: nat)
    ensures |g| == ClassCount(o) && HasEnabledClasses(o, g)
    ensures forall j :: 0 <= j < |g| ==> g[j] in Charset(o)
    ensures next >= k
  {
    var cs := Charset(o);
    g := "";
    next := k;
    if o.uppercase {
      g, next := DrawFrom(g, UpperAlphabet(o.excludeAmbiguous), cs, rand, next);
    }
    if o.lowercase {
      g, next := DrawFrom(g, LowerAlphabet(o.excludeAmbiguous), cs, rand, next);
    }
    if o.numbers {
      g, next := DrawFrom(g, DigitAlphabet(o.excludeAmbiguous), cs, rand, next);
    }
    if o.symbols {
      g, next := DrawFrom(g, Symbols, cs, rand, next);
    }
  }

  /** One password of `generatePassword`: a guaranteed character per enabled
      class, then charset characters up to the requested length, shuffled. */
  method GenerateOne(o: Options, rand: Oracle, k: nat) returns (pwd: string, next: nat)
    requires Charset(o) != []
    ensures WellFormed(o, pwd)
    ensures next >= k
  {
    var g, result;
    g, next := Guaranteed(o, rand, k);
    result, next := FillRest(o, g, rand, next);
    pwd, next := Shuffle(result, rand, next);
    ShuffleWellFormed(o, result, pwd);
  }

  /** The loop after the guaranteed characters: draws from the whole
      character set until the password has `length` characters. */
  method FillRest(o: Options, g: string, rand: Oracle, k: nat) returns (result: string, next: nat)
    requires Charset(o) != []
    requires |g| == ClassCount(o) && HasEnabledClasses(o, g)
    requires forall j :: 0 <= j < |g| ==> g[j] in Charset(o)
    ensures WellFormed(o, result)
    ensures next >= k
  {
    var cs := Charset(o);
    result, next := g, k;
    var i := |result|;
    while i < o.length
      invariant |result| == i >= ClassCount(o)
      invariant i <= o.length || i == ClassCount(o)
      invariant HasEnabledClasses(o, result)
      invariant forall j :: 0 <= j < |result| ==> result[j] in cs
      invariant next >= k
      decreases o.length - i
    {
      var c := cs[Pick(rand, next, |cs|)];
      ClassesAppend(o, result, c);
      result := result + [c];
      next := next + 1;
      i := i + 1;
    }
  }

  /** Reordering a well-formed password keeps it well-formed. */
  lemma ShuffleWellFormed(o: Options, s: string, t: string)
    requires WellFormed(o, s) && multiset(t) == multiset(s)
    ensures WellFormed(o, t)
  {
    ShuffleKeeps(s, t, Charset(o));
    ShuffleKeeps(s, t, UpperAlphabet(o.excludeAmbiguous));
    ShuffleKeeps(s, t, LowerAlphabet(o.excludeAmbiguous));
    ShuffleKeeps(s, t, DigitAlphabet(o.excludeAmbiguous));
    ShuffleKeeps(s, t, Symbols);
  }


  // ---------------------------------------------------------------------
  // Strength

  datatype Strength = Weak | Medium | Strong | VeryStrong

  function UniqueCount(pwd: string): nat
  {
    |set c | c in pwd|
  }

  /** The additive score: length, one point per character class present,
      and one for variety (at least 70% distinct characters). */
  function Score(pwd: string): (score: nat)
    ensures score <= 7
  {
    (if |pwd| >= 12 then 2 else if |pwd| >= 8 then 1 else 0)
    + (if HasCharOf(pwd, IsUpper) then 1 else 0)
    + (if HasCharOf(pwd, IsLower) then 1 else 0)
    + (if HasCharOf(pwd, IsDigit) then 1 else 0)
    + (if HasCharOf(pwd, IsOther) then 1 else 0)
    + (if 10 * UniqueCount(pwd) >= 7 * |pwd| then 1 else 0)
  }

  /** `calculatePasswordStrength`. */
  function StrengthOf(pwd: string): (s: Strength)
    ensures s == VeryStrong <==> Score(pwd) >= 6
    ensures s == Strong <==> 4 <= Score(pwd) < 6
    ensures s == Medium <==> 2 <= Score(pwd) < 4
    ensures s == Weak <==> Score(pwd) < 2
  {
    var score := Score(pwd);
    if score >= 6 then VeryStrong
    else if score >= 4 then Strong
    else if score >= 2 then Medium
    else Weak
  }

  lemma HasCharWeaken(pwd: string, a: string, q: char -> bool)
    requires HasCharIn(pwd, a)
    requires forall i :: 0 <= i < |a| ==> q(a[i])
    ensures HasCharOf(pwd, q)
  {
    var i :| 0 <= i < |pwd| && pwd[i] in a;
    var j :| 0 <= j < |a| && a[j] == pwd[i];
  }

  /** A password generated with all four classes and length at least 8 is
      at least strong; with length at least 12 it is very strong. */
  lemma AllClassesStrong(o: Options, pwd: string)
    requires o.uppercase && o.lowercase && o.numbers && o.symbols
    requires WellFormed(o, pwd) && |pwd| >= 8
    ensures StrengthOf(pwd) == Strong || StrengthOf(pwd) == VeryStrong
    ensures |pwd| >= 12 ==> StrengthOf(pwd) == VeryStrong
  {
    var up := UpperAlphabet(o.excludeAmbiguous);
    var low := LowerAlphabet(o.excludeAmbiguous);
    var dig := DigitAlphabet(o.excludeAmbiguous);
    SymbolsAreOther();
    HasCharWeaken(pwd, up, IsUpper);
    HasCharWeaken(pwd, low, IsLower);
    HasCharWeaken(pwd, dig, IsDigit);
    HasCharWeaken(pwd, Symbols, IsOther);
  }

  // ---------------------------------------------------------------------
  // Length bounds

  /** Changing the minimum: length := max(new minimum, length). */
  function WithMinLength(o: Options, v: int): (r: Options)
    ensures r.minLength == v && r.maxLength == o.maxLength
    ensures r.length >= v && r.length >= o.length && (r.length == v || r.length == o.length)
    ensures r.(length := o.length, minLength := o.minLength) == o
  {
    o.(minLength := v, length := if v > o.length then v else o.length)
  }

  /** Changing the maximum: length := min(new maximum, length). */
  function WithMaxLength(o: Options, v: int): (r: Options)
    ensures r.maxLength == v && r.minLength == o.minLength
    ensures r.length <= v && r.length <= o.length && (r.length == v || r.length == o.length)
    ensures r.(length := o.length, maxLength := o.maxLength) == o
  {
    o.(maxLength := v, length := if v < o.length then v else o.length)
  }

  predicate InBounds(o: Options) { o.minLength <= o.length <= o.maxLength }

  /** Either update keeps the length between the bounds, as long as the new
      bound does not cross the other one. */
  lemma BoundsKept(o: Options, v: int)
    requires InBounds(o)
    ensures v <= o.maxLength ==> InBounds(WithMinLength(o, v))
    ensures v >= o.minLength ==> InBounds(WithMaxLength(o, v))
  {
  }

  /** The page: the single password, the list of a bulk run, and the options. */
  class Generator {
    var password: string
    var passwordList: seq<string>
    var options: Options

    constructor()
      ensures password == "" && passwordList == [] && options == DefaultOptions
    {
      password := "";
      passwordList := [];
      options := DefaultOptions;
    }

    /** `generatePassword(count)`: with no class enabled (and count >= 1) the
        message replaces the password; otherwise `count` well-formed
        passwords go to `password` (count 1) or to `passwordList`. */
    method GeneratePassword(count: nat, rand: Oracle, k: nat) returns (passwords: seq<string>, next: nat)
      modifies this
      ensures options == old(options)
      ensures next >= k
      ensures Charset(options) == [] && count >= 1 ==>
        password == NoClassMessage && passwordList == old(passwordList) && passwords == []
      ensures Charset(options) != [] || count == 0 ==>
        && |passwords| == count
        && (forall j :: 0 <= j < count ==> WellFormed(options, passwords[j]))
        && (count == 1 ==> password == passwords[0] && passwordList == old(passwordList))
        && (count != 1 ==> passwordList == passwords && password == old(password))
    {
      passwords := [];
      next := k;
      var j := 0;
      while j < count
        invariant 0 <= j <= count && |passwords| == j && next >= k
        invariant Charset(options) == [] ==> j == 0
        invariant forall i :: 0 <= i < j ==> WellFormed(options, passwords[i])
        invariant password == old(password) && passwordList == old(passwordList) && options == old(options)
      {
        if Charset(options) == [] {
          password := NoClassMessage;
          passwords := [];
          return;
        }
        var pwd;
        pwd, next := GenerateOne(options, rand, next);
        passwords := passwords + [pwd];
        j := j + 1;
      }
      if count == 1 {
        password := passwords[0];
      } else {
        passwordList := passwords;
      }
    }

    method SetMinLength(v: int)
      modifies this
      ensures options == WithMinLength(old(options), v)
      ensures password == old(password) && passwordList == old(passwordList)
    {
      options := WithMinLength(options, v);
    }

    method SetMaxLength(v: int)
      modifies this
      ensures options == WithMaxLength(old(options), v)
      ensures password == old(password) && passwordList == old(passwordList)
    {
      options := WithMaxLength(options, v);
    }
  }
}
