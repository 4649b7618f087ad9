/**
 The lookup layer of the INI reader: `removeQuotes`, `ini_read_str`, the bounded copy
 `ini_read_strn`, the integer readers built on `ini_read_num`, and `ini_read_bool`.

 A lookup may write into the document (the closing quote of a value is overwritten with
 the terminator), so every reader returns the document as it is afterwards. An output
 parameter the C code leaves untouched is modelled by passing its current value in and
 getting it back.
 */
module IniRead {
  import opened Wrappers
  import opened CText
  import opened IniDocument

  // ---------------------------------------------------------------------------------
  // removeQuotes

  /** The text a lookup returns, and the text left stored in the entry afterwards. */
  datatype Unquoted = Unquoted(read: string, stored: string)

  /** `removeQuotes(v, v + strlen(v))`. A value of at least two characters that starts with
      a double quote loses it; if it also ends with one, that quote is overwritten by the
      terminator in the stored entry too. */
  function RemoveQuotes(v: string): (r: Unquoted)
    ensures r.stored == v || (|v| >= 2 && r.stored == v[..|v| - 1] && v[|v| - 1] == '"')
    ensures (|v| >= 2 && v[0] == '"') ==> r.read == r.stored[1..]
    ensures !(|v| >= 2 && v[0] == '"') ==> r.read == v && r.stored == v
  {
    if |v| < 2 || v[0] != '"' then Unquoted(v, v)
    else if v[|v| - 1] == '"' then Unquoted(v[1..|v| - 1], v[..|v| - 1])
    else Unquoted(v[1..], v)
  }

  /** A value written between double quotes reads back as the text inside them. */
  lemma QuoteRoundTrip(x: string)
    ensures RemoveQuotes(['"'] + x + ['"']).read == x
  {
    var v := ['"'] + x + ['"'];
    assert v[1..|v| - 1] == x;
  }

  /** A value opening with a quote but not closing with one only loses the opening quote;
      a value closing with a quote but not opening with one is kept whole. */
  lemma UnbalancedQuotes(x: string)
    requires x != [] && x[|x| - 1] != '"'
    ensures RemoveQuotes(['"'] + x).read == x
    ensures x != [] && x[0] != '"' ==> RemoveQuotes(x + ['"']).read == x + ['"']
  {
    assert (['"'] + x)[1..] == x;
  }

  /** Reading an entry a second time gives a different text exactly when the stored value
      starts with a quote and ends with two of them (as `""` does): the first read moved
      the terminator onto the last quote, so the second read strips the one before it. */
  lemma RereadChanges(v: string)
    ensures RemoveQuotes(RemoveQuotes(v).stored).read != RemoveQuotes(v).read <==>
      |v| >= 2 && v[0] == '"' && v[|v| - 1] == '"' && v[|v| - 2] == '"'
  {
    if |v| >= 3 && v[0] == '"' && v[|v| - 1] == '"' {
      var s := v[..|v| - 1];
      assert s[0] == '"' && s[|s| - 1] == v[|v| - 2];
      if v[|v| - 2] == '"' {
        assert |RemoveQuotes(s).read| == |s| - 2;
      } else {
        assert RemoveQuotes(s).read == s[1..] == v[1..|v| - 1];
      }
    }
  }

  // ---------------------------------------------------------------------------------
  // ini_read_str

  /** What a reader does to its output parameter: leaves it alone, or stores a string or
      NULL into it. */
  datatype Out<T> = Untouched | Wrote(item: T)

  /** The result of `ini_read_str`: the status (-1 error, 0 found, 1 missing), what was
      written to `*value`, and the document afterwards (NULL stays NULL). */
  datatype StrRead = StrRead(status: int, value: Out<Option<string>>, doc: Option<seq<Section>>)

  /** A NULL or empty section name means `global`. */
  function SectionOrGlobal(section: Option<string>): (name: string)
    ensures section.Some? && section.value != [] ==> name == section.value
    ensures section.None? || section.value == [] ==> name == GlobalName
  {
    if section.None? || section.value == [] then GlobalName else section.value
  }

  /** The document after the entry at (`i`, `j`) is rewritten to `stored`. */
  function StoreValue(doc: seq<Section>, i: nat, j: nat, stored: string): seq<Section>
    requires i < |doc| && j < |doc[i].entries|
  {
    var e := doc[i].entries;
    doc[i := Section(doc[i].name, e[j := Entry(e[j].key, stored)])]
  }

  /** Two documents with the same section names and the same keys in the same places. */
  predicate SameShape(a: seq<Section>, b: seq<Section>) {
    && |a| == |b|
    && (forall i :: 0 <= i < |a| ==> a[i].name == b[i].name && |a[i].entries| == |b[i].entries|)
    && (forall i, j :: 0 <= i < |a| && 0 <= j < |a[i].entries| ==> a[i].entries[j].key == b[i].entries[j].key)
  }

  /** `ini_read_str` with a non-NULL out-pointer; `key` is `None` for a NULL key. */
  function ReadStr(handler: Option<seq<Section>>, section: Option<string>, key: Option<string>,
                   default: Option<string>): (r: StrRead)
    ensures r.status == -1 <==> handler.None? || key.None?
    ensures r.value.Wrote? <==> key.Some?
    ensures r.doc.Some? <==> handler.Some?
    ensures r.status == -1 ==> r.doc == handler && r.value == (if key.None? then Untouched else Wrote(default))
    ensures r.status == 0 <==>
      handler.Some? && key.Some? && FindValue(handler.value, SectionOrGlobal(section), key.value).Some?
    ensures r.status == 0 ==>
      var v := FindValue(handler.value, SectionOrGlobal(section), key.value).value;
      r.value == Wrote(Some(RemoveQuotes(v).read)) && r.doc.Some? &&
      SameShape(handler.value, r.doc.value) &&
      FindValue(r.doc.value, SectionOrGlobal(section), key.value) == Some(RemoveQuotes(v).stored)
    ensures r.status == 1 ==> r.value == Wrote(default) && r.doc == handler
  {
    if key.None? then StrRead(-1, Untouched, handler)
    else if handler.None? then StrRead(-1, Wrote(default), handler)
    else
      var doc := handler.value;
      match FindSection(doc, SectionOrGlobal(section))
      case None => StrRead(1, Wrote(default), handler)
      case Some(i) =>
        match FindArg(doc[i].entries, key.value)
        case None => StrRead(1, Wrote(default), handler)
        case Some(j) =>
          var u := RemoveQuotes(doc[i].entries[j].value);
          var d := StoreValue(doc, i, j, u.stored);
          StoreValueFound(doc, i, j, u.stored, SectionOrGlobal(section), key.value);
          StrRead(0, Wrote(Some(u.read)), Some(d))
  }

  /** Rewriting one entry keeps every name and key where it was. */
  lemma StoreValueFound(doc: seq<Section>, i: nat, j: nat, stored: string, name: string, key: string)
    requires i < |doc| && j < |doc[i].entries|
    requires FindSection(doc, name) == Some(i) && FindArg(doc[i].entries, key) == Some(j)
    ensures SameShape(doc, StoreValue(doc, i, j, stored))
    ensures FindValue(StoreValue(doc, i, j, stored), name, key) == Some(stored)
  {
    var d := StoreValue(doc, i, j, stored);
    var e := doc[i].entries;
    FindSectionUpdate(doc, i, e[j := Entry(e[j].key, stored)], name);
    FindArgSameKeys(d[i].entries, e, key);
  }

  /** A lookup changes no other value: every other section and key reads as before. */
  lemma ReadStrKeepsOthers(doc: seq<Section>, section: Option<string>, key: string,
                           default: Option<string>, name: string, other: string)
    requires name != SectionOrGlobal(section) || other != key
    ensures var r := ReadStr(Some(doc), section, Some(key), default);
            FindValue(r.doc.value, name, other) == FindValue(doc, name, other)
  {
    var r := ReadStr(Some(doc), section, Some(key), default);
    if r.status == 0 {
      var i := FindSection(doc, SectionOrGlobal(section)).value;
      var j := FindArg(doc[i].entries, key).value;
      var e := doc[i].entries;
      var stored := RemoveQuotes(e[j].value).stored;
      var e' := e[j := Entry(e[j].key, stored)];
      assert r.doc.value == StoreValue(doc, i, j, stored);
      FindSectionUpdate(doc, i, e', name);
      FindArgSameKeys(e', e, other);
      match FindSection(doc, name)
      case None =>
      case Some(k) =>
        if k == i {
          match FindArg(e, other)
          case None =>
          case Some(m) => assert m != j;
        }
    }
  }

  /** Reading the same key twice: the second read returns the first read's text unless the
      stored value ended in two quotes. */
  lemma ReadStrTwice(doc: seq<Section>, section: Option<string>, key: string, default: Option<string>)
    requires FindValue(doc, SectionOrGlobal(section), key).Some?
    ensures var v := FindValue(doc, SectionOrGlobal(section), key).value;
            var r1 := ReadStr(Some(doc), section, Some(key), default);
            var r2 := ReadStr(r1.doc, section, Some(key), default);
            r2.status == 0 &&
            (r2.value == r1.value <==>
               !(|v| >= 2 && v[0] == '"' && v[|v| - 1] == '"' && v[|v| - 2] == '"'))
  {
    var v := FindValue(doc, SectionOrGlobal(section), key).value;
    RereadChanges(v);
  }

  // ---------------------------------------------------------------------------------
  // ini_read_strn

  /** `n` NUL bytes. */
  function Zeros(n: nat): (z: string)
    ensures |z| == n && forall i :: 0 <= i < n ==> z[i] == '\0'
  {
    if n == 0 then [] else Zeros(n - 1) + ['\0']
  }

  /** `memset(value, 0, n)` followed by `sstrncpy(value, s, n)`: at most `n - 1` characters
      of the C string `s`, then NULs up to `n` bytes. */
  function CopyBounded(s: Option<string>, n: nat): (buf: string)
    ensures |buf| == n
    ensures n > 0 ==> buf[n - 1] == '\0'
    ensures s.Some? && n > 0 ==>
      var k := if |CStr(s.value)| < n - 1 then |CStr(s.value)| else n - 1;
      CStr(buf) == CStr(s.value)[..k]
    ensures s.None? ==> buf == Zeros(n)
  {
    if n == 0 || s.None? then Zeros(n)
    else
      var c := CStr(s.value);
      var t := if |c| < n - 1 then c else c[..n - 1];
      var buf := t + Zeros(n - |t|);
      assert buf[..|t|] == t;
      CStrOfPrefix(buf, |t|);
      buf
  }

  /** The C string of a buffer whose first `k` bytes hold no NUL and whose byte `k` is NUL. */
  lemma CStrOfPrefix(buf: string, k: nat)
    requires k < |buf| && NoNul(buf[..k]) && buf[k] == '\0'
    ensures CStr(buf) == buf[..k]
  {
  }

  /** The result of `ini_read_strn`: status, the caller's buffer afterwards, document. */
  datatype StrNRead = StrNRead(status: int, buffer: string, doc: Option<seq<Section>>)

  /** `ini_read_strn`: on an error the buffer is left as it was; otherwise it holds the
      (possibly truncated) text `ini_read_str` produced, or only NULs if that was NULL. */
  function ReadStrN(handler: Option<seq<Section>>, section: Option<string>, key: Option<string>,
                    buffer: string, default: Option<string>): (r: StrNRead)
    ensures var s := ReadStr(handler, section, key, default);
            r.status == s.status && r.doc == s.doc
    ensures r.status < 0 ==> r.buffer == buffer
    ensures r.status >= 0 ==> |r.buffer| == |buffer|
    ensures r.status >= 0 && |buffer| > 0 ==> r.buffer[|buffer| - 1] == '\0'
    ensures var s := ReadStr(handler, section, key, default);
            s.status >= 0 && s.value.item.None? ==> r.buffer == Zeros(|buffer|)
    ensures var s := ReadStr(handler, section, key, default);
            s.status >= 0 && s.value.item.Some? && |buffer| > 0 ==>
              var c := CStr(s.value.item.value);
              CStr(r.buffer) == c[..if |c| < |buffer| - 1 then |c| else |buffer| - 1]
  {
    var s := ReadStr(handler, section, key, default);
    if s.status < 0 then StrNRead(s.status, buffer, s.doc)
    else StrNRead(s.status, CopyBounded(s.value.item, |buffer|), s.doc)
  }

  /** A found text shorter than the buffer arrives whole. */
  lemma ReadStrNFits(handler: Option<seq<Section>>, section: Option<string>, key: Option<string>,
                     buffer: string, default: Option<string>)
    requires ReadStr(handler, section, key, default).status == 0
    requires var t := ReadStr(handler, section, key, default).value.item.value;
             NoNul(t) && |t| < |buffer|
    ensures CStr(ReadStrN(handler, section, key, buffer, default).buffer) ==
            ReadStr(handler, section, key, default).value.item.value
  {
    CStrOfNoNul(ReadStr(handler, section, key, default).value.item.value);
  }

  // ---------------------------------------------------------------------------------
  // Numbers, as `strtoll`/`strtoull` read them when given base 0

  /** The value of `c` as a digit: 0 to 9 for `0` to `9`, 10 to 15 for `a` to `f` in
      either case, and 16 (a digit of no base the reader uses) for anything else. */
  function DigitValue(c: char): (v: nat)
    ensures v <= 16
    ensures v < 10 <==> '0' <= c <= '9'
  {
    if '0' <= c <= '9' then c as int - '0' as int
    else if 'a' <= c <= 'f' then c as int - 'a' as int + 10
    else if 'A' <= c <= 'F' then c as int - 'A' as int + 10
    else 16
  }

  predicate IsDigitIn(c: char, base: nat) {
    DigitValue(c) < base
  }

  predicate AllDigitsIn(s: string, base: nat) {
    forall i :: 0 <= i < |s| ==> IsDigitIn(s[i], base)
  }

  /** The number of digits of `base` that `s` starts with. */
  function DigitRun(s: string, base: nat): (n: nat)
    ensures n <= |s| && AllDigitsIn(s[..n], base)
    ensures n < |s| ==> !IsDigitIn(s[n], base)
  {
    if |s| > 0 && IsDigitIn(s[0], base) then 1 + DigitRun(s[1..], base) else 0
  }

  /** The value of a string of digits of `base` (0 for none). */
  function DigitsValue(d: string, base: nat): nat
    requires AllDigitsIn(d, base)
  {
    if |d| == 0 then 0 else base * DigitsValue(d[..|d| - 1], base) + DigitValue(d[|d| - 1])
  }

  /** The decimal digits of `n`, without leading zeros. */
  function ShowNat(n: nat): (s: string)
    ensures |s| > 0 && AllDigitsIn(s, 10)
    ensures s[0] == '0' <==> n == 0
  {
    var last := ['0' + (n % 10) as char];
    if n < 10 then last else ShowNat(n / 10) + last
  }

  /** `n` written in decimal, with a minus sign when negative. */
  function ShowInt(n: int): (s: string)
    ensures |s| > 0 && (s[0] == '-' || '0' <= s[0] <= '9')
  {
    if n < 0 then ['-'] + ShowNat(-n) else ShowNat(n)
  }

  lemma {:induction false} ShowNatValue(n: nat)
    ensures DigitsValue(ShowNat(n), 10) == n
    decreases n
  {
    var s := ShowNat(n);
    if n >= 10 {
      ShowNatValue(n / 10);
      assert s[..|s| - 1] == ShowNat(n / 10);
    }
  }

  /** A number as the C library reads it: leading whitespace, an optional sign, then the
      longest run of digits of the base the text announces. */
  datatype Scanned = Scanned(negative: bool, magnitude: nat)

  function Scan(s: string): Scanned {
    var t := LSkip(CStr(s));
    var u := Unsigned(s);
    Scanned(|t| > 0 && t[0] == '-', DigitsValue(Digits(u), Radix(u)))
  }

  /** What follows the whitespace and the sign. */
  function Unsigned(s: string): (u: string)
    ensures |u| <= |s|
  {
    var t := LSkip(CStr(s));
    if |t| > 0 && (t[0] == '-' || t[0] == '+') then t[1..] else t
  }

  /** `0x` or `0X` followed by a hexadecimal digit. */
  predicate HexPrefix(u: string) {
    |u| >= 3 && u[0] == '0' && (u[1] == 'x' || u[1] == 'X') && IsDigitIn(u[2], 16)
  }

  /** The base a text announces: 16 after a hexadecimal prefix, 8 after any other leading
      `0`, 10 otherwise. */
  function Radix(u: string): (base: nat)
    ensures base == 8 || base == 10 || base == 16
    ensures base == 16 <==> HexPrefix(u)
    ensures base == 10 <==> |u| == 0 || u[0] != '0'
  {
    if HexPrefix(u) then 16 else if |u| > 0 && u[0] == '0' then 8 else 10
  }

  /** The digits read: the longest run of digits of the announced base, after the prefix. */
  function Digits(u: string): (d: string)
    ensures AllDigitsIn(d, Radix(u))
    ensures HexPrefix(u) ==> |d| > 0
    ensures var p := if HexPrefix(u) then 2 else 0;
            p + |d| <= |u| && d == u[p..p + |d|] &&
            (p + |d| < |u| ==> !IsDigitIn(u[p + |d|], Radix(u)))
  {
    var body := if HexPrefix(u) then u[2..] else u;
    body[..DigitRun(body, Radix(u))]
  }

  const Int64Min: int := -0x8000_0000_0000_0000
  const Int64Max: int := 0x7FFF_FFFF_FFFF_FFFF
  const UInt64Max: int := 0xFFFF_FFFF_FFFF_FFFF

  /** `strtoll(s, NULL, 0)`: the signed value, held at the `long long` limits on overflow. */
  function StrToLL(s: string): (v: int)
    ensures Int64Min <= v <= Int64Max
    ensures var sc := Scan(s);
            (!sc.negative && sc.magnitude <= Int64Max ==> v == sc.magnitude) &&
            (sc.negative && sc.magnitude <= -Int64Min ==> v + sc.magnitude == 0)
  {
    var sc := Scan(s);
    var x: int := if sc.negative then 0 - sc.magnitude else sc.magnitude;
    if x < Int64Min then Int64Min else if x > Int64Max then Int64Max else x
  }

  /** `strtoull(s, NULL, 0)`: the magnitude, negated modulo 2^64 after a minus sign, held at
      `ULLONG_MAX` on overflow. */
  function StrToULL(s: string): (v: int)
    ensures 0 <= v <= UInt64Max
    ensures var sc := Scan(s);
            sc.magnitude <= UInt64Max ==>
              (if sc.negative then v + sc.magnitude else v - sc.magnitude) % (UInt64Max + 1) == 0
  {
    var sc := Scan(s);
    if sc.magnitude > UInt64Max then UInt64Max
    else if sc.negative && sc.magnitude > 0 then UInt64Max + 1 - sc.magnitude
    else sc.magnitude
  }

  /** A text without NUL or leading whitespace is read from its first character. */
  lemma ReadFromStart(x: string)
    requires NoNul(x) && (x == [] || !IsSpace(x[0]))
    ensures LSkip(CStr(x)) == x
  {
    CStrOfNoNul(x);
    LSkipPadded([], x);
    assert [] + x == x;
  }

  /** Decimal digits without a leading zero (or a lone `0`) read as their decimal value:
      they never announce another base, and `0` is the same number in octal. */
  lemma DecimalDigits(d: string)
    requires |d| > 0 && AllDigitsIn(d, 10) && (d[0] == '0' ==> d == "0")
    ensures DigitsValue(Digits(d), Radix(d)) == DigitsValue(d, 10)
  {
    assert !HexPrefix(d) by {
      if |d| >= 3 {
        assert IsDigitIn(d[1], 10);
      }
    }
    if d[0] == '0' {
      assert Digits(d) == d;
      assert d[..0] == [];
    } else {
      assert Digits(d) == d;
    }
  }

  /** `ShowInt` writes no padding: the sign, if any, and the digits are read as written. */
  lemma ShowIntPlain(n: int)
    ensures LSkip(CStr(ShowInt(n))) == ShowInt(n)
    ensures Unsigned(ShowInt(n)) == ShowNat(if n < 0 then -n else n)
  {
    var s := ShowInt(n);
    DigitsNoNul(ShowNat(if n < 0 then -n else n), 10);
    if n < 0 {
      NoNulConcat(['-'], ShowNat(-n));
    }
    ReadFromStart(s);
  }

  /** Reading back what `ShowInt` wrote gives the number. */
  lemma ScanShowInt(n: int)
    ensures Scan(ShowInt(n)) == Scanned(n < 0, if n < 0 then -n else n)
  {
    ShowIntPlain(n);
    DecimalDigits(ShowNat(if n < 0 then -n else n));
    ShowNatValue(if n < 0 then -n else n);
  }

  lemma StrToLLShowInt(n: int)
    requires Int64Min <= n <= Int64Max
    ensures StrToLL(ShowInt(n)) == n
  {
    ScanShowInt(n);
  }

  lemma StrToULLShowInt(n: int)
    requires 0 <= n <= UInt64Max
    ensures StrToULL(ShowInt(n)) == n
  {
    ScanShowInt(n);
  }

  /** A zero in front does not change the value of a string of digits. */
  lemma {:induction false} LeadingZero(o: string, base: nat)
    requires base > 0 && AllDigitsIn(o, base)
    ensures AllDigitsIn(['0'] + o, base)
    ensures DigitsValue(['0'] + o, base) == DigitsValue(o, base)
    decreases |o|
  {
    var z := ['0'] + o;
    assert forall i :: 1 <= i < |z| ==> z[i] == o[i - 1];
    if |o| == 0 {
      assert z[..0] == [];
    } else {
      assert z[..|z| - 1] == ['0'] + o[..|o| - 1];
      LeadingZero(o[..|o| - 1], base);
    }
  }

  /** No digit is a NUL. */
  lemma DigitsNoNul(h: string, base: nat)
    requires base <= 16 && AllDigitsIn(h, base)
    ensures NoNul(h)
  {
    assert !IsDigitIn('\0', base);
  }

  lemma AfterPrefix(p: string, h: string)
    ensures (p + h)[|p|..] == h
    ensures forall i :: |p| <= i < |p| + |h| ==> (p + h)[i] == h[i - |p|]
  {
  }

  /** A hexadecimal prefix and digits are read from the `0`, in base 16. */
  lemma HexPlain(x: char, h: string)
    requires x == 'x' || x == 'X'
    requires |h| > 0 && AllDigitsIn(h, 16)
    ensures LSkip(CStr(['0', x] + h)) == ['0', x] + h
    ensures HexPrefix(['0', x] + h)
  {
    DigitsNoNul(h, 16);
    NoNulConcat(['0', x], h);
    ReadFromStart(['0', x] + h);
  }

  /** `0x` or `0X` followed by hexadecimal digits reads as those digits in base 16. */
  lemma HexText(x: char, h: string)
    requires x == 'x' || x == 'X'
    requires |h| > 0 && AllDigitsIn(h, 16)
    ensures Scan(['0', x] + h) == Scanned(false, DigitsValue(h, 16))
  {
    var u := ['0', x] + h;
    HexPlain(x, h);
    AfterPrefix(['0', x], h);
    assert Digits(u) == h;
  }

  /** A leading `0` followed by octal digits reads as those digits in base 8. */
  lemma OctalText(o: string)
    requires AllDigitsIn(o, 8)
    ensures Scan(['0'] + o) == Scanned(false, DigitsValue(o, 8))
  {
    var u := ['0'] + o;
    assert forall i :: 1 <= i < |u| ==> u[i] == o[i - 1];
    ReadFromStart(u);
    assert Unsigned(u) == u;
    assert !HexPrefix(u);
    assert Digits(u) == u;
    LeadingZero(o, 8);
  }

  // ---------------------------------------------------------------------------------
  // The integer readers

  /** The C types the integer readers store into. */
  datatype IntType = Int8 | UInt8 | Int16 | UInt16 | Int32 | UInt32 | Int64 | UInt64
  {
    predicate Signed() {
      this == Int8 || this == Int16 || this == Int32 || this == Int64
    }

    /** 2 to the number of bits of the type. */
    function Modulus(): int {
      match this
      case Int8 => 0x100 case UInt8 => 0x100
      case Int16 => 0x1_0000 case UInt16 => 0x1_0000
      case Int32 => 0x1_0000_0000 case UInt32 => 0x1_0000_0000
      case Int64 => 0x1_0000_0000_0000_0000 case UInt64 => 0x1_0000_0000_0000_0000
    }

    function Min(): int {
      if Signed() then -(Modulus() / 2) else 0
    }

    function Max(): int {
      if Signed() then Modulus() / 2 - 1 else Modulus() - 1
    }

    predicate Holds(v: int) {
      Min() <= v <= Max()
    }
  }

  /** The conversion `(type)v` on a two's complement machine: the value modulo 2^bits,
      taken into the type's range. */
  function Cast(t: IntType, v: int): (r: int)
    ensures t.Holds(r)
    ensures (r - v) % t.Modulus() == 0
  {
    var m := t.Modulus();
    var u := v % m;
    if t.Signed() && u > t.Max() then u - m else u
  }

  /** What `ini_read_num` stores before the cast: `strtoll` for signed types, `strtoull`
      for unsigned ones. */
  function ParseFor(t: IntType, s: string): int {
    if t.Signed() then StrToLL(s) else StrToULL(s)
  }

  datatype IntRead = IntRead(status: int, value: int, doc: Option<seq<Section>>)

  /** `ini_read_int`, `ini_read_unsigned` and the sized variants: a found text is parsed
      and cast, a missing key gives the default, an error leaves the output alone. */
  function ReadInt(t: IntType, handler: Option<seq<Section>>, section: Option<string>,
                   key: Option<string>, current: int, default: int): (r: IntRead)
    requires t.Holds(current) && t.Holds(default)
    ensures var s := ReadStr(handler, section, key, None);
            r.status == s.status && r.doc == s.doc &&
            (r.status == 0 ==> r.value == Cast(t, ParseFor(t, s.value.item.value))) &&
            (r.status == 1 ==> r.value == default) &&
            (r.status == -1 ==> r.value == current)
    ensures t.Holds(r.value)
  {
    var s := ReadStr(handler, section, key, None);
    if s.status == 0 then IntRead(0, Cast(t, ParseFor(t, s.value.item.value)), s.doc)
    else if s.status > 0 then IntRead(s.status, default, s.doc)
    else IntRead(s.status, current, s.doc)
  }

  /** A number the type can hold is unchanged by the cast. */
  lemma CastOfHeld(t: IntType, v: int)
    requires t.Holds(v)
    ensures Cast(t, v) == v
  {
  }

  /** A number the type can hold, written in decimal, reads back as itself. */
  lemma ParseForShowInt(t: IntType, n: int)
    requires t.Holds(n)
    ensures Cast(t, ParseFor(t, ShowInt(n))) == n
  {
    if t.Signed() {
      StrToLLShowInt(n);
    } else {
      StrToULLShowInt(n);
    }
    CastOfHeld(t, n);
  }

  // ---------------------------------------------------------------------------------
  // ini_read_bool

  datatype BoolRead = BoolRead(status: int, value: bool, doc: Option<seq<Section>>)

  /** `ini_read_bool`: a found text is compared, lower-cased, with `true` and `false`;
      anything else gives the default although the status says found. */
  function ReadBool(handler: Option<seq<Section>>, section: Option<string>, key: Option<string>,
                    current: bool, default: bool): (r: BoolRead)
    ensures var s := ReadStr(handler, section, key, None);
            r.status == s.status && r.doc == s.doc &&
            (r.status == 0 ==>
               var low := LowerAll(CStr(s.value.item.value));
               r.value == (if low == "true" then true else if low == "false" then false else default)) &&
            (r.status == 1 ==> r.value == default) &&
            (r.status == -1 ==> r.value == current)
  {
    var s := ReadStr(handler, section, key, None);
    if s.status == 0 then
      var low := LowerAll(CStr(s.value.item.value));
      BoolRead(0, if low == "true" then true else if low == "false" then false else default, s.doc)
    else if s.status > 0 then BoolRead(s.status, default, s.doc)
    else BoolRead(s.status, current, s.doc)
  }

  /** `s` is `word` up to the letter case of A to Z. */
  predicate SameLetters(s: string, word: string) {
    |s| == |word| && forall i :: 0 <= i < |s| ==> ToLowerAscii(s[i]) == ToLowerAscii(word[i])
  }

  /** A value reads as the word `true` or `false` exactly when it is that word in any letter
      case: `TRUE`, `True` and `tRuE` all read as true. */
  lemma {:induction false} BoolSpellings(s: string)
    ensures LowerAll(s) == "true" <==> SameLetters(s, "true")
    ensures LowerAll(s) == "false" <==> SameLetters(s, "false")
  {
    var low := LowerAll(s);
    if SameLetters(s, "true") {
      assert forall i :: 0 <= i < 4 ==> low[i] == "true"[i];
    }
    if SameLetters(s, "false") {
      assert forall i :: 0 <= i < 5 ==> low[i] == "false"[i];
    }
  }

  /** What `ini_read_bool` makes of a found value: any letter case of `true` is true, any
      letter case of `false` is false, and every other text is the default. */
  lemma ReadBoolWords(handler: Option<seq<Section>>, section: Option<string>,
                      key: Option<string>, current: bool, default: bool)
    ensures var s := ReadStr(handler, section, key, None);
            var r := ReadBool(handler, section, key, current, default);
            s.status == 0 ==>
              var t := CStr(s.value.item.value);
              (SameLetters(t, "true") ==> r.value) &&
              (SameLetters(t, "false") ==> !r.value) &&
              (!SameLetters(t, "true") && !SameLetters(t, "false") ==> r.value == default)
  {
    var s := ReadStr(handler, section, key, None);
    if s.status == 0 {
      BoolSpellings(CStr(s.value.item.value));
    }
  }
}
