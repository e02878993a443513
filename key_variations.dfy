/** The key transformers of the synthetic duplicate generator: three small edits
    (a typo, an insertion or deletion, a transposition) that keep a key close
    to the original, and three reformats that give the same application a key
    in another format. The random choices each transformer makes are its
    parameters, and Python's `hash` is the parameter `hash`. */
module KeyVariations {
  import opened EventLog

  // Characters (the ASCII part of Python's `str` predicates)

  predicate IsDigit(c: char)
  {
    '0' <= c <= '9'
  }

  function DigitValue(c: char): (d: nat)
    requires IsDigit(c)
    ensures d < 10
  {
    c as int - '0' as int
  }

  function DigitChar(d: nat): (c: char)
    requires d < 10
    ensures IsDigit(c) && DigitValue(c) == d
  {
    ('0' as int + d) as char
  }

  predicate IsUpper(c: char)
  {
    'A' <= c <= 'Z'
  }

  predicate IsLower(c: char)
  {
    'a' <= c <= 'z'
  }

  /** `string.digits + string.ascii_letters`. */
  predicate IsAlphanumeric(c: char)
  {
    IsDigit(c) || IsLower(c) || IsUpper(c)
  }

  function ToLower(c: char): (r: char)
    ensures IsUpper(c) ==> IsLower(r) && r as int == c as int + 32
    ensures !IsUpper(c) ==> r == c
  {
    if IsUpper(c) then (c as int + 32) as char else c
  }

  function ToUpper(c: char): (r: char)
    ensures IsLower(c) ==> IsUpper(r) && r as int == c as int - 32
    ensures !IsLower(c) ==> r == c
  {
    if IsLower(c) then (c as int - 32) as char else c
  }

  /** The table of look-alike letters a typo substitutes. */
  function SimilarChar(c: char): Option<char>
  {
    match c
    case 'a' => Some('e')
    case 'e' => Some('a')
    case 'i' => Some('o')
    case 'o' => Some('i')
    case 'u' => Some('o')
    case 'b' => Some('d')
    case 'd' => Some('b')
    case 'p' => Some('q')
    case 'q' => Some('p')
    case 'n' => Some('m')
    case 'm' => Some('n')
    case 'w' => Some('v')
    case 'v' => Some('w')
    case _ => None
  }

  /** The table maps lower-case letters to other lower-case letters, and every
      entry is undone by the entry of its image except `u`, which goes to `o`
      while `o` goes to `i`. */
  lemma SimilarCharPairs(c: char)
    requires SimilarChar(c).Some?
    ensures IsLower(c) && IsLower(SimilarChar(c).value) && SimilarChar(c).value != c
    ensures SimilarChar(SimilarChar(c).value) == Some(c) <==> c != 'u'
  {
  }

  // The three edits

  /** `create_typo_variation` with `pos` and `shift` the random position and the
      random digit increment. */
  function TypoVariation(key: string, pos: nat, shift: nat): (r: string)
    requires |key| >= 3 ==> pos < |key|
    requires 1 <= shift <= 9
    ensures |r| == |key|
    ensures |key| < 3 ==> r == key
    ensures forall k :: 0 <= k < |key| && k != pos ==> r[k] == key[k]
    ensures |key| >= 3 && IsDigit(key[pos]) ==>
      IsDigit(r[pos]) && r[pos] != key[pos] && DigitValue(r[pos]) == (DigitValue(key[pos]) + shift) % 10
    ensures |key| >= 3 && !IsDigit(key[pos]) && SimilarChar(ToLower(key[pos])).Some? ==>
      ToLower(r[pos]) == SimilarChar(ToLower(key[pos])).value && (IsUpper(r[pos]) <==> IsUpper(key[pos]))
    ensures |key| >= 3 && !IsDigit(key[pos]) && SimilarChar(ToLower(key[pos])).None? ==> r == key
  {
    if |key| < 3 then key
    else if IsDigit(key[pos]) then
      key[pos := DigitChar((DigitValue(key[pos]) + shift) % 10)]
    else
      match SimilarChar(ToLower(key[pos]))
      case Some(replacement) =>
        SimilarCharPairs(ToLower(key[pos]));
        key[pos := if IsUpper(key[pos]) then ToUpper(replacement) else replacement]
      case None => key
  }

  /** `s[:pos] + c + s[pos:]`. */
  function InsertAt(s: string, pos: nat, c: char): (r: string)
    requires pos <= |s|
    ensures |r| == |s| + 1
    ensures r[..pos] == s[..pos] && r[pos] == c && r[pos + 1..] == s[pos..]
  {
    s[..pos] + [c] + s[pos..]
  }

  /** `s[:pos] + s[pos+1:]`. */
  function DeleteAt(s: string, pos: nat): (r: string)
    requires pos < |s|
    ensures |r| == |s| - 1
    ensures r[..pos] == s[..pos] && r[pos..] == s[pos + 1..]
  {
    s[..pos] + s[pos + 1..]
  }

  /** Deleting the character just inserted gives the key back. */
  lemma DeleteUndoesInsert(s: string, pos: nat, c: char)
    requires pos <= |s|
    ensures DeleteAt(InsertAt(s, pos, c), pos) == s
  {
    var t := DeleteAt(InsertAt(s, pos, c), pos);
    assert t == t[..pos] + t[pos..];
    assert s == s[..pos] + s[pos..];
  }

  /** `create_insertion_deletion_variation` with `insert` the random operation
      (`'insert'` or `'delete'`), `pos` the random position and `c` the random
      character. */
  function InsertDeleteVariation(key: string, insert: bool, pos: nat, c: char): (r: string)
    requires |key| >= 2 && insert && |key| < 10 ==> pos <= |key| && IsAlphanumeric(c)
    requires |key| >= 2 && !(insert && |key| < 10) ==> pos < |key|
    ensures |key| < 2 ==> r == key
    ensures |key| >= 2 ==> |r| == |key| + 1 || |r| == |key| - 1
    ensures |key| >= 2 ==> (|r| == |key| + 1 <==> insert && |key| < 10)
    ensures |r| == |key| + 1 ==>
      r[..pos] == key[..pos] && r[pos] == c && IsAlphanumeric(c) && r[pos + 1..] == key[pos..]
    ensures |r| == |key| - 1 ==> r[..pos] == key[..pos] && r[pos..] == key[pos + 1..]
  {
    if |key| < 2 then key
    else if insert && |key| < 10 then InsertAt(key, pos, c)
    else DeleteAt(key, pos)
  }

  /** `create_transposition_variation`: the adjacent characters at `pos` and
      `pos + 1` change places. */
  function TranspositionVariation(key: string, pos: nat): (r: string)
    requires |key| >= 2 ==> pos <= |key| - 2
    ensures |r| == |key| && multiset(r) == multiset(key)
    ensures |key| < 2 ==> r == key
    ensures |key| >= 2 ==> r[pos] == key[pos + 1] && r[pos + 1] == key[pos]
    ensures forall k :: 0 <= k < |key| && k != pos && k != pos + 1 ==> r[k] == key[k]
  {
    if |key| < 2 then key else key[pos := key[pos + 1]][pos + 1 := key[pos]]
  }

  /** Swapping the same two characters again gives the key back. */
  lemma TranspositionInvolution(key: string, pos: nat)
    requires |key| >= 2 ==> pos <= |key| - 2
    ensures TranspositionVariation(TranspositionVariation(key, pos), pos) == key
  {
    var r := TranspositionVariation(TranspositionVariation(key, pos), pos);
    assert forall k :: 0 <= k < |key| ==> r[k] == key[k];
  }

  /** The transposition as the source performs it: on a list copy of the key,
      swapping two cells in place. */
  method Transpose(key: string, pos: nat) returns (r: string)
    requires |key| >= 2 ==> pos <= |key| - 2
    ensures r == TranspositionVariation(key, pos)
  {
    if |key| < 2 {
      return key;
    }
    var chars := new char[|key|](k requires 0 <= k < |key| => key[k]);
    assert chars[..] == key;
    chars[pos], chars[pos + 1] := chars[pos + 1], chars[pos];
    r := chars[..];
  }

  // Decimal numerals

  /** `s.isdigit()`: non-empty and made of digits. */
  predicate IsAllDigits(s: string)
  {
    |s| > 0 && forall k :: 0 <= k < |s| ==> IsDigit(s[k])
  }

  function Pow10(n: nat): (r: nat)
    ensures r >= 1
  {
    if n == 0 then 1 else 10 * Pow10(n - 1)
  }

  /** `int(s)` of a string of digits. */
  function DigitsValue(s: string): nat
    requires forall k :: 0 <= k < |s| ==> IsDigit(s[k])
    decreases |s|
  {
    if |s| == 0 then 0 else DigitsValue(s[..|s| - 1]) * 10 + DigitValue(s[|s| - 1])
  }

  /** `str(n)`: the decimal digits of `n` without leading zeros. */
  function ShowNat(n: nat): (r: string)
    ensures IsAllDigits(r)
  {
    if n < 10 then [DigitChar(n)] else ShowNat(n / 10) + [DigitChar(n % 10)]
  }

  function Zeros(n: nat): (r: string)
    ensures |r| == n && forall k :: 0 <= k < n ==> r[k] == '0'
  {
    seq(n, k => '0')
  }

  /** `f"{n:0{width}d}"`: the numeral of `n`, padded on the left with zeros to at
      least `width` characters. */
  function ZeroPad(n: nat, width: nat): string
  {
    var d := ShowNat(n);
    if |d| < width then Zeros(width - |d|) + d else d
  }

  /** Reading back a numeral gives the number. */
  lemma {:induction false} ShowNatValue(n: nat)
    ensures DigitsValue(ShowNat(n)) == n
  {
    if n >= 10 {
      ShowNatValue(n / 10);
      var s := ShowNat(n);
      assert s[..|s| - 1] == ShowNat(n / 10);
    }
  }

  /** The numeral of `n` has at most `w` digits exactly when `n < 10^w`. */
  lemma {:induction false} ShowNatLength(n: nat, w: nat)
    requires w >= 1
    ensures |ShowNat(n)| <= w <==> n < Pow10(w)
  {
    if n >= 10 {
      if w == 1 {
        assert |ShowNat(n)| == |ShowNat(n / 10)| + 1 >= 2;
      } else {
        ShowNatLength(n / 10, w - 1);
        assert n == 10 * (n / 10) + n % 10;
        assert n / 10 < Pow10(w - 1) <==> n < 10 * Pow10(w - 1);
      }
    } else {
      assert Pow10(w) == 10 * Pow10(w - 1);
    }
  }

  /** Leading zeros do not change the value of a numeral. */
  lemma {:induction false} LeadingZerosValue(z: nat, d: string)
    requires forall k :: 0 <= k < |d| ==> IsDigit(d[k])
    ensures forall k :: 0 <= k < |Zeros(z) + d| ==> IsDigit((Zeros(z) + d)[k])
    ensures DigitsValue(Zeros(z) + d) == DigitsValue(d)
    decreases z + |d|
  {
    var s := Zeros(z) + d;
    if |d| > 0 {
      LeadingZerosValue(z, d[..|d| - 1]);
      assert s[..|s| - 1] == Zeros(z) + d[..|d| - 1];
    } else if z > 0 {
      LeadingZerosValue(z - 1, d);
      assert s[..|s| - 1] == Zeros(z - 1) + d;
    }
  }

  /** A padded numeral is a numeral of `n` with exactly `max(width, digits of n)`
      characters; when `n < 10^width` that is exactly `width`. */
  lemma ZeroPadFacts(n: nat, width: nat)
    ensures IsAllDigits(ZeroPad(n, width))
    ensures DigitsValue(ZeroPad(n, width)) == n
    ensures |ZeroPad(n, width)| == Max(width, |ShowNat(n)|)
    ensures width >= 1 && n < Pow10(width) ==> |ZeroPad(n, width)| == width
  {
    var d := ShowNat(n);
    ShowNatValue(n);
    if |d| < width {
      LeadingZerosValue(width - |d|, d);
    }
    if width >= 1 {
      ShowNatLength(n, width);
    }
  }

  /** A numeral is below `10^(its length)`. */
  lemma {:induction false} DigitsValueBelow(s: string)
    requires forall k :: 0 <= k < |s| ==> IsDigit(s[k])
    ensures DigitsValue(s) < Pow10(|s|)
    decreases |s|
  {
    if |s| > 0 {
      var t := s[..|s| - 1];
      DigitsValueBelow(t);
      assert DigitsValue(t) * 10 <= (Pow10(|t|) - 1) * 10;
    }
  }

  /** A numeral that does not start with `0` is at least `10^(its length - 1)`. */
  lemma {:induction false} DigitsValueAtLeast(s: string)
    requires IsAllDigits(s) && s[0] != '0'
    ensures DigitsValue(s) >= Pow10(|s| - 1)
    decreases |s|
  {
    if |s| > 1 {
      var t := s[..|s| - 1];
      DigitsValueAtLeast(t);
      assert DigitsValue(t) * 10 >= Pow10(|t| - 1) * 10;
    }
  }

  /** A numeral without leading zeros has as many digits as `str(int(s))`. */
  lemma CanonicalNumeralLength(s: string)
    requires IsAllDigits(s) && (s[0] != '0' || |s| == 1)
    ensures |ShowNat(DigitsValue(s))| == |s|
  {
    var n := DigitsValue(s);
    DigitsValueBelow(s);
    ShowNatLength(n, |s|);
    if |s| > 1 {
      DigitsValueAtLeast(s);
      ShowNatLength(n, |s| - 1);
    }
  }

  // The three reformats

  /** The shape shared by the reformats: an all-digit key becomes `prefix` and
      `int(key)` padded to `width`; any other key becomes `fallback` and
      `hash(key) % 10^fallbackWidth` padded to `fallbackWidth`. */
  function Reformat(key: string, prefix: string, width: nat, fallback: string, fallbackWidth: nat,
                    hash: string -> int): string
  {
    if IsAllDigits(key) then prefix + ZeroPad(DigitsValue(key), width)
    else fallback + ZeroPad(hash(key) % Pow10(fallbackWidth), fallbackWidth)
  }

  /** The numeric case keeps the number: the part after the prefix is a numeral
      of `int(key)` of at least `width` digits. A key without leading zeros
      always comes out longer than it went in. */
  lemma ReformatNumeric(key: string, prefix: string, width: nat, fallback: string, fallbackWidth: nat,
                        hash: string -> int)
    requires IsAllDigits(key)
    ensures var r := Reformat(key, prefix, width, fallback, fallbackWidth, hash);
      && |r| >= |prefix| + width
      && r[..|prefix|] == prefix
      && IsAllDigits(r[|prefix|..])
      && DigitsValue(r[|prefix|..]) == DigitsValue(key)
      && (width >= 1 && DigitsValue(key) < Pow10(width) ==> |r| == |prefix| + width)
      && (key[0] != '0' || |key| == 1 ==> |r| >= |prefix| + |key|)
  {
    var n := DigitsValue(key);
    var r := Reformat(key, prefix, width, fallback, fallbackWidth, hash);
    ZeroPadFacts(n, width);
    assert r[|prefix|..] == ZeroPad(n, width);
    if key[0] != '0' || |key| == 1 {
      CanonicalNumeralLength(key);
    }
  }

  /** The other case always yields the fallback prefix and exactly
      `fallbackWidth` digits, whatever the hash. */
  lemma ReformatFallback(key: string, prefix: string, width: nat, fallback: string, fallbackWidth: nat,
                         hash: string -> int)
    requires !IsAllDigits(key) && fallbackWidth >= 1
    ensures var r := Reformat(key, prefix, width, fallback, fallbackWidth, hash);
      && |r| == |fallback| + fallbackWidth
      && r[..|fallback|] == fallback
      && IsAllDigits(r[|fallback|..])
      && DigitsValue(r[|fallback|..]) == hash(key) % Pow10(fallbackWidth)
  {
    var n := hash(key) % Pow10(fallbackWidth);
    var r := Reformat(key, prefix, width, fallback, fallbackWidth, hash);
    ZeroPadFacts(n, fallbackWidth);
    assert r[|fallback|..] == ZeroPad(n, fallbackWidth);
  }

  /** `create_semantic_variation`: `APP` and six digits, or `REQ` and five. */
  function SemanticVariation(key: string, hash: string -> int): string
  {
    Reformat(key, "APP", 6, "REQ", 5, hash)
  }

  /** `create_format_variation`: `SYS` and eight digits, or `REF` and four. */
  function FormatVariation(key: string, hash: string -> int): string
  {
    Reformat(key, "SYS", 8, "REF", 4, hash)
  }

  /** `create_system_variation`: `WEB` and seven digits, or `MOB` and three. */
  function SystemVariation(key: string, hash: string -> int): string
  {
    Reformat(key, "WEB", 7, "MOB", 3, hash)
  }

  /** `APP` and `int(key)` in at least six digits for an all-digit key, else
      `REQ` and exactly five digits of the hash. */
  lemma SemanticVariationForm(key: string, hash: string -> int)
    ensures var r := SemanticVariation(key, hash);
      && |r| >= 8
      && (IsAllDigits(key) ==> r[..3] == "APP" && IsAllDigits(r[3..]) && DigitsValue(r[3..]) == DigitsValue(key))
      && (!IsAllDigits(key) ==> |r| == 8 && r[..3] == "REQ" && IsAllDigits(r[3..])
                                && DigitsValue(r[3..]) == hash(key) % 100000)
  {
    assert Pow10(5) == 100000;
    if IsAllDigits(key) {
      ReformatNumeric(key, "APP", 6, "REQ", 5, hash);
    } else {
      ReformatFallback(key, "APP", 6, "REQ", 5, hash);
    }
  }

  /** `SYS` and `int(key)` in at least eight digits for an all-digit key, else
      `REF` and exactly four digits of the hash. */
  lemma FormatVariationForm(key: string, hash: string -> int)
    ensures var r := FormatVariation(key, hash);
      && |r| >= 7
      && (IsAllDigits(key) ==> |r| >= 11 && r[..3] == "SYS" && IsAllDigits(r[3..])
                               && DigitsValue(r[3..]) == DigitsValue(key))
      && (!IsAllDigits(key) ==> |r| == 7 && r[..3] == "REF" && IsAllDigits(r[3..])
                                && DigitsValue(r[3..]) == hash(key) % 10000)
  {
    assert Pow10(4) == 10000;
    if IsAllDigits(key) {
      ReformatNumeric(key, "SYS", 8, "REF", 4, hash);
    } else {
      ReformatFallback(key, "SYS", 8, "REF", 4, hash);
    }
  }

  /** `WEB` and `int(key)` in at least seven digits for an all-digit key, else
      `MOB` and exactly three digits of the hash. */
  lemma SystemVariationForm(key: string, hash: string -> int)
    ensures var r := SystemVariation(key, hash);
      && |r| >= 6
      && (IsAllDigits(key) ==> |r| >= 10 && r[..3] == "WEB" && IsAllDigits(r[3..])
                               && DigitsValue(r[3..]) == DigitsValue(key))
      && (!IsAllDigits(key) ==> |r| == 6 && r[..3] == "MOB" && IsAllDigits(r[3..])
                                && DigitsValue(r[3..]) == hash(key) % 1000)
  {
    assert Pow10(3) == 1000;
    if IsAllDigits(key) {
      ReformatNumeric(key, "WEB", 7, "MOB", 3, hash);
    } else {
      ReformatFallback(key, "WEB", 7, "MOB", 3, hash);
    }
  }

  /** An all-digit key without leading zeros never keeps its length under a
      reformat, so the reformatted key never shares a length bucket with it. */
  lemma ReformatsChangeLength(key: string, hash: string -> int)
    requires IsAllDigits(key) && (key[0] != '0' || |key| == 1)
    ensures |SemanticVariation(key, hash)| > |key|
    ensures |FormatVariation(key, hash)| > |key|
    ensures |SystemVariation(key, hash)| > |key|
  {
    ReformatNumeric(key, "APP", 6, "REQ", 5, hash);
    ReformatNumeric(key, "SYS", 8, "REF", 4, hash);
    ReformatNumeric(key, "WEB", 7, "MOB", 3, hash);
  }
}
