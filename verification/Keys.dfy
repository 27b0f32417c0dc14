/** Storage keys: `throttled/contrib/flask/keys.py` and the prefixes of `throttled/rate_limiter/base.py`. */
module Keys {
  import opened Base
  import opened Limiters
  import S = Store

  newtype byte = b: int | 0 <= b < 256

  // ----- percent-encoding (sections 2.1 and 2.3 of RFC 3986)

  /** `-._~`, digits and letters stand for themselves. */
  predicate Unreserved(b: byte) {
    48 <= b <= 57 || 65 <= b <= 90 || 97 <= b <= 122 || b == 45 || b == 46 || b == 95 || b == 126
  }

  const HEX := "0123456789ABCDEF"

  function HexValue(c: char): int {
    if '0' <= c <= '9' then c as int - 48 else c as int - 55
  }

  /** `quote(field, safe="")` on the field's UTF-8 bytes. */
  function Quote(bs: seq<byte>): string {
    if bs == [] then "" else
    QuoteOne(bs[0]) + Quote(bs[1..])
  }

  function Unquote(s: string): seq<byte> {
    if s == "" then [] else
    if s[0] == '%' && |s| >= 3 && 0 <= 16 * HexValue(s[1]) + HexValue(s[2]) < 256
    then [(16 * HexValue(s[1]) + HexValue(s[2])) as byte] + Unquote(s[3..])
    else [(s[0] as int % 256) as byte] + Unquote(s[1..])
  }

  lemma HexRoundTrip(b: byte)
    ensures var c, d := HEX[b / 16], HEX[b % 16];
      && 16 * HexValue(c) + HexValue(d) == b as int
      && c != ':' && c != '|' && d != ':' && d != '|'
  {
    HexDigit(b as int / 16);
    HexDigit(b as int % 16);
  }

  lemma HexDigit(d: int)
    requires 0 <= d < 16
    ensures HexValue(HEX[d]) == d && HEX[d] != ':' && HEX[d] != '|'
  {
    if d < 8 {
      if d == 0 {} else if d == 1 {} else if d == 2 {} else if d == 3 {}
      else if d == 4 {} else if d == 5 {} else if d == 6 {} else {}
    } else {
      if d == 8 {} else if d == 9 {} else if d == 10 {} else if d == 11 {}
      else if d == 12 {} else if d == 13 {} else if d == 14 {} else {}
    }
  }

  /** Every field is recovered from its encoding, which holds neither separator. */
  lemma {:induction false} QuoteRoundTrip(bs: seq<byte>)
    ensures Unquote(Quote(bs)) == bs
    ensures ':' !in Quote(bs) && '|' !in Quote(bs)
    decreases |bs|
  {
    if bs != [] {
      QuoteRoundTrip(bs[1..]);
      UnquoteOne(bs[0], Quote(bs[1..]));
      assert [bs[0]] + bs[1..] == bs;
    }
  }

  function QuoteOne(b: byte): string {
    if Unreserved(b) then [b as char] else ['%', HEX[b / 16], HEX[b % 16]]
  }

  lemma PlainByte(b: byte)
    ensures Unreserved(b) ==> b != '%' as byte && b != ':' as byte && b != '|' as byte
  {
  }

  lemma UnquoteOne(b: byte, rest: string)
    ensures Unquote(QuoteOne(b) + rest) == [b] + Unquote(rest)
    ensures ':' !in QuoteOne(b) && '|' !in QuoteOne(b)
  {
    hide HexValue, HEX, Unreserved;
    HexRoundTrip(b);
    PlainByte(b);
    var q := QuoteOne(b) + rest;
    if Unreserved(b) {
      assert q[1..] == rest;
    } else {
      assert q[3..] == rest;
    }
  }

  /** Letters, digits and `-._~`. */
  predicate Plain(c: char) {
    'A' <= c <= 'Z' || 'a' <= c <= 'z' || '0' <= c <= '9' || c in "-._~"
  }

  lemma {:induction false} QuoteAppend(front: seq<byte>, back: seq<byte>)
    ensures Quote(front + back) == Quote(front) + Quote(back)
    decreases |front|
  {
    if front == [] {
      assert [] + back == back;
    } else {
      assert (front + back)[1..] == front[1..] + back;
      QuoteAppend(front[1..], back);
    }
  }

  /** Wherever it stands in a field, a byte that is such a character is left as it is, and any other byte becomes '%'
      and its two upper-case hexadecimal digits. */
  lemma EachByteQuoted(front: seq<byte>, b: byte, back: seq<byte>)
    ensures Quote(front + [b] + back) == Quote(front) + Quote([b]) + Quote(back)
    ensures Quote([b]) == if Plain(b as char) then [b as char]
                          else ['%', "0123456789ABCDEF"[b / 16], "0123456789ABCDEF"[b % 16]]
  {
    QuoteAppend(front + [b], back);
    QuoteAppend(front, [b]);
    assert [b][1..] == [] && QuoteOne(b) + "" == QuoteOne(b);
    PlainIsUnreserved(b);
    hide Plain, Unreserved;
  }

  lemma PlainIsUnreserved(b: byte)
    ensures Plain(b as char) <==> Unreserved(b)
  {
  }

  /** So an encoded field holds these characters and '%' only. */
  lemma {:induction false} QuotedCharacters(bs: seq<byte>, c: char)
    requires c in Quote(bs)
    ensures Plain(c) || c == '%'
    decreases |bs|
  {
    EachByteQuoted([], bs[0], bs[1..]);
    assert [] + [bs[0]] + bs[1..] == bs && Quote([]) + Quote([bs[0]]) == Quote([bs[0]]);
    if c in Quote(bs[1..]) { QuotedCharacters(bs[1..], c); } else { HexIsPlain(bs[0] as int); }
  }

  lemma HexIsPlain(b: int)
    requires 0 <= b < 256
    ensures Plain("0123456789ABCDEF"[b / 16]) && Plain("0123456789ABCDEF"[b % 16])
  {
    forall d | 0 <= d < 16 ensures Plain("0123456789ABCDEF"[d]) { HexDigit(d); }
  }

  // ----- splitting

  /** The text after the last `c` (all of it if there is none). */
  function AfterLast(s: string, c: char): string
    decreases |s|
  {
    if s == "" || s[|s| - 1] == c then "" else AfterLast(s[..|s| - 1], c) + [s[|s| - 1]]
  }

  /** The text before the last `c` (none of it if there is none). */
  function BeforeLast(s: string, c: char): string
    decreases |s|
  {
    if s == "" then "" else if s[|s| - 1] == c then s[..|s| - 1] else BeforeLast(s[..|s| - 1], c)
  }

  /** A last field without the separator splits off again. */
  lemma {:induction false} SplitLast(front: string, last: string, c: char)
    requires c !in last
    ensures AfterLast(front + [c] + last, c) == last && BeforeLast(front + [c] + last, c) == front
    decreases |last|
  {
    var s := front + [c] + last;
    if last == "" {
      assert s == front + [c] && s[..|s| - 1] == front;
    } else {
      var init := last[..|last| - 1];
      SplitLast(front, init, c);
      assert s[..|s| - 1] == front + [c] + init;
    }
  }

  // ----- compose_key

  datatype KeyParts = KeyParts(method_: seq<byte>, route: seq<byte>, principal: seq<byte>)

  /** `compose_key`. */
  function ComposeKey(p: KeyParts): string {
    Quote(p.method_) + "|" + Quote(p.route) + "|" + Quote(p.principal)
  }

  function DecomposeKey(s: string): KeyParts {
    var front := BeforeLast(s, '|');
    KeyParts(Unquote(BeforeLast(front, '|')), Unquote(AfterLast(front, '|')), Unquote(AfterLast(s, '|')))
  }

  /** The parts are recovered from the key, which holds no ':'. */
  lemma ComposeRoundTrip(p: KeyParts)
    ensures DecomposeKey(ComposeKey(p)) == p && ':' !in ComposeKey(p)
  {
    QuoteRoundTrip(p.method_);
    QuoteRoundTrip(p.route);
    QuoteRoundTrip(p.principal);
    SplitLast(Quote(p.method_), Quote(p.route), '|');
    SplitLast(Quote(p.method_) + "|" + Quote(p.route), Quote(p.principal), '|');
  }

  // ----- window numbers

  /** The decimal digits of a number that is not negative. */
  function Digits(n: nat): string {
    if n < 10 then [('0' as int + n) as char] else Digits(n / 10) + [('0' as int + n % 10) as char]
  }

  /** `f"{n}"`. */
  function Decimal(n: int): string { if n < 0 then "-" + Digits(-n) else Digits(n) }

  function ParseDigits(s: string): int
    decreases |s|
  {
    if s == "" then 0 else 10 * ParseDigits(s[..|s| - 1]) + (s[|s| - 1] as int - '0' as int)
  }

  function ParseDecimal(s: string): int {
    if s != "" && s[0] == '-' then -ParseDigits(s[1..]) else ParseDigits(s)
  }

  lemma {:induction false} DigitsRoundTrip(n: nat)
    ensures Digits(n) != "" && ParseDigits(Digits(n)) == n
    ensures forall c :: c in Digits(n) ==> '0' <= c <= '9'
  {
    var last := ('0' as int + n % 10) as char;
    if n < 10 {
      assert Digits(n)[..0] == "";
    } else {
      DigitsRoundTrip(n / 10);
      assert Digits(n)[..|Digits(n)| - 1] == Digits(n / 10);
    }
  }

  lemma DecimalRoundTrip(n: int)
    ensures ParseDecimal(Decimal(n)) == n && ':' !in Decimal(n)
  {
    DigitsRoundTrip(if n < 0 then -n else n);
    if n < 0 { assert Decimal(n)[1..] == Digits(-n); } else { assert Digits(n)[0] in Digits(n); }
  }

  // ----- whole storage keys

  const DEFAULT_NAMESPACE := "throttled"

  /** `Meta.type`. */
  function TypeName(a: Algorithm): string {
    match a
    case FIXED_WINDOW => "fixed_window"
    case SLIDING_WINDOW => "sliding_window"
    case LEAKING_BUCKET => "leaking_bucket"
    case TOKEN_BUCKET => "token_bucket"
    case GCRA => "gcra"
  }

  function TypeOfName(s: string): Option<Algorithm> {
    if s == "fixed_window" then Some(FIXED_WINDOW) else
    if s == "sliding_window" then Some(SLIDING_WINDOW) else
    if s == "leaking_bucket" then Some(LEAKING_BUCKET) else
    if s == "token_bucket" then Some(TOKEN_BUCKET) else
    if s == "gcra" then Some(GCRA) else None
  }

  lemma TypeNames(a: Algorithm)
    ensures TypeOfName(TypeName(a)) == Some(a) && ':' !in TypeName(a) && TypeName(a) != "period"
  {
  }

  function Namespace(keyPrefix: Option<string>): string {
    if keyPrefix.None? then DEFAULT_NAMESPACE else keyPrefix.value
  }

  /** What `str.strip` removes, among ASCII characters. */
  predicate Blank(c: char) { c == ' ' || 9 <= c as int <= 13 || 28 <= c as int <= 31 }

  /** `validate_key_prefix`. */
  predicate ValidKeyPrefix(p: string) {
    (exists i :: 0 <= i < |p| && !Blank(p[i])) && p[0] != ':' && p[|p| - 1] != ':'
  }

  /** Blank ASCII characters, one by one. */
  const BLANKS := [' ', 9 as char, 10 as char, 11 as char, 12 as char, 13 as char,
                   28 as char, 29 as char, 30 as char, 31 as char]

  /** `_resolve_key_prefix`. */
  function ResolvePrefix(keyPrefix: Option<string>, a: Algorithm): Result<string> {
    if keyPrefix.None? then Ok("throttled:v1:" + TypeName(a) + ":")
    else if !ValidKeyPrefix(keyPrefix.value) then DataError
    else Ok(keyPrefix.value + ":" + "v1" + ":" + TypeName(a) + ":")
  }

  /** The caller's key, or its window's, as the limiters format it before the prefix. */
  function Suffix(key: string, window: Option<int>): string {
    if window.None? then key else key + ":period:" + Decimal(window.value)
  }

  /** `_prepare_key`. */
  function StorageKey(prefix: string, key: string, window: Option<int>): string { prefix + Suffix(key, window) }

  datatype Decoded = Decoded(namespace: string, algorithm: Option<Algorithm>, key: string, window: Option<int>)

  /** Read a storage key back, from its end. */
  function Decode(s: string): Decoded {
    var last, front := AfterLast(s, ':'), BeforeLast(s, ':');
    var windowed := AfterLast(front, ':') == "period";
    var keyed := if windowed then BeforeLast(front, ':') else s;
    var key, typed := AfterLast(keyed, ':'), BeforeLast(keyed, ':');
    Decoded(BeforeLast(BeforeLast(typed, ':'), ':'), TypeOfName(AfterLast(typed, ':')), key,
            if windowed then Some(ParseDecimal(last)) else None)
  }

  /** A custom namespace is refused exactly if it is blank or begins or ends with ':'. */
  lemma NamespacesRefused(ns: string, a: Algorithm)
    ensures ResolvePrefix(Some(ns), a) == DataError <==>
      (forall i :: 0 <= i < |ns| ==> ns[i] in BLANKS) || ns[0] == ':' || ns[|ns| - 1] == ':'
  {
    forall i | 0 <= i < |ns| ensures Blank(ns[i]) <==> ns[i] in BLANKS { BlankIsOneOf(ns[i]); }
    hide Blank, TypeName;
  }

  lemma BlankIsOneOf(c: char)
    ensures Blank(c) <==> c in BLANKS
  {
  }

  /** The keys of the default namespace, spelled out. */
  lemma DefaultKeys(a: Algorithm, key: string, i: int)
    ensures var p := ResolvePrefix(None, a);
      && p.Ok?
      && StorageKey(p.value, key, None) == p.value + key
      && StorageKey(p.value, key, Some(i)) == p.value + key + ":period:" + Decimal(i)
      && p.value == "throttled:v1:" + (match a
                                       case FIXED_WINDOW => "fixed_window"
                                       case SLIDING_WINDOW => "sliding_window"
                                       case LEAKING_BUCKET => "leaking_bucket"
                                       case TOKEN_BUCKET => "token_bucket"
                                       case GCRA => "gcra") + ":"
  {
    var p := ResolvePrefix(None, a).value;
    AppendAll(p, key, ":period:", Decimal(i));
    hide Decimal;
  }

  lemma AppendAll(a: string, b: string, c: string, d: string)
    ensures a + (b + c + d) == a + b + c + d
  {
  }

  lemma PrefixShape(keyPrefix: Option<string>, a: Algorithm)
    requires ResolvePrefix(keyPrefix, a).Ok?
    ensures ResolvePrefix(keyPrefix, a).value == Namespace(keyPrefix) + [':'] + "v1" + [':'] + TypeName(a) + [':']
  {
    assert "throttled:v1:" == DEFAULT_NAMESPACE + [':'] + "v1" + [':'];
  }

  lemma DecodeTyped(ns: string, a: Algorithm)
    ensures var typed := ns + [':'] + "v1" + [':'] + TypeName(a);
      BeforeLast(BeforeLast(typed, ':'), ':') == ns && TypeOfName(AfterLast(typed, ':')) == Some(a)
    ensures AfterLast(ns + [':'] + "v1" + [':'] + TypeName(a), ':') == TypeName(a)
  {
    TypeNames(a);
    SplitLast(ns + [':'] + "v1", TypeName(a), ':');
    SplitLast(ns, "v1", ':');
  }

  /** A storage key of a key without ':' gives back its namespace, algorithm, key and window. */
  lemma DecodeStorageKey(keyPrefix: Option<string>, a: Algorithm, key: string, window: Option<int>)
    requires ResolvePrefix(keyPrefix, a).Ok? && ':' !in key
    ensures Decode(StorageKey(ResolvePrefix(keyPrefix, a).value, key, window)) ==
      Decoded(Namespace(keyPrefix), Some(a), key, window)
  {
    PrefixShape(keyPrefix, a);
    var typed := Namespace(keyPrefix) + [':'] + "v1" + [':'] + TypeName(a);
    DecodeTyped(Namespace(keyPrefix), a);
    if window.Some? { SplitsWindowed(typed, key, window.value); } else { SplitsPlain(typed, key); }
    TypeNames(a);
    hide AfterLast, BeforeLast, TypeName, TypeOfName, ResolvePrefix, Suffix;
    assert typed + [':'] + Suffix(key, window) == StorageKey(ResolvePrefix(keyPrefix, a).value, key, window);
  }

  lemma SplitsPlain(typed: string, key: string)
    requires ':' !in key
    ensures var s := typed + [':'] + Suffix(key, None);
      s == typed + [':'] + key && AfterLast(s, ':') == key && BeforeLast(s, ':') == typed
  {
    SplitLast(typed, key, ':');
  }

  lemma WindowedShape(front: string, key: string, i: int)
    ensures front + Suffix(key, Some(i)) == front + key + [':'] + "period" + [':'] + Decimal(i)
  {
    assert ":period:" == [':'] + "period" + [':'];
    Regroup(front, key, [':'] + "period" + [':'], Decimal(i));
    hide *;
  }

  lemma Regroup(a: string, b: string, c: string, d: string)
    ensures a + b + c + d == a + (b + c + d)
  {
  }

  lemma SplitsWindowed(typed: string, key: string, i: int)
    requires ':' !in key
    ensures var s := typed + [':'] + Suffix(key, Some(i));
      var front := BeforeLast(s, ':');
      && ParseDecimal(AfterLast(s, ':')) == i
      && AfterLast(front, ':') == "period"
      && AfterLast(BeforeLast(front, ':'), ':') == key && BeforeLast(BeforeLast(front, ':'), ':') == typed
  {
    hide AfterLast, BeforeLast, Decimal, ParseDecimal;
    DecimalRoundTrip(i);
    var keyed := typed + [':'] + key;
    var front := keyed + [':'] + "period";
    WindowedShape(typed + [':'], key, i);
    SplitLast(front, Decimal(i), ':');
    SplitLast(keyed, "period", ':');
    SplitLast(typed, key, ':');
  }

  /** Main result: a storage key built from composed parts determines namespace, algorithm, method, route, principal and
      window; only the default namespace and an explicit "throttled" are one. */
  lemma StorageKeysAreInjective(p1: Option<string>, a1: Algorithm, k1: KeyParts, w1: Option<int>,
                                p2: Option<string>, a2: Algorithm, k2: KeyParts, w2: Option<int>)
    requires ResolvePrefix(p1, a1).Ok? && ResolvePrefix(p2, a2).Ok?
    ensures var (prefix1, prefix2) := (ResolvePrefix(p1, a1).value, ResolvePrefix(p2, a2).value);
      StorageKey(prefix1, ComposeKey(k1), w1) == StorageKey(prefix2, ComposeKey(k2), w2) <==>
        Namespace(p1) == Namespace(p2) && a1 == a2 && k1 == k2 && w1 == w2
  {
    ComposeRoundTrip(k1);
    ComposeRoundTrip(k2);
    DecodeStorageKey(p1, a1, ComposeKey(k1), w1);
    DecodeStorageKey(p2, a2, ComposeKey(k2), w2);
    PrefixShape(p1, a1);
    PrefixShape(p2, a2);
  }

  /** What a limiter puts between its namespace and its key. */
  function Middle(a: Algorithm): string { ":" + "v1" + ":" + TypeName(a) + ":" }

  /** Raw keys may hold ':', and then limiters of different namespaces share storage keys: whenever one namespace
      extends the other by what the other's limiter adds. */
  lemma RawKeysCollide(ns: string, a: Algorithm, more: string, key: string, window: Option<int>)
    requires ValidKeyPrefix(ns) && more != "" && more[|more| - 1] != ':'
    ensures var p1, p2 := ResolvePrefix(Some(ns), a), ResolvePrefix(Some(ns + Middle(a) + more), a);
      p1.Ok? && p2.Ok? && StorageKey(p1.value, more + Middle(a) + key, window) == StorageKey(p2.value, key, window)
  {
    hide Middle, Suffix, ResolvePrefix, ValidKeyPrefix;
    LongerNamespace(ns, Middle(a), more);
    PrefixIs(ns, a);
    PrefixIs(ns + Middle(a) + more, a);
    SuffixOf(more + Middle(a), key, window);
    Regroup(ns + Middle(a), more, Middle(a), Suffix(key, window));
  }

  lemma LongerNamespace(ns: string, middle: string, more: string)
    requires ValidKeyPrefix(ns) && more != "" && more[|more| - 1] != ':'
    ensures ValidKeyPrefix(ns + middle + more)
  {
    hide Blank;
    var i :| 0 <= i < |ns| && !Blank(ns[i]);
    assert !Blank((ns + middle + more)[i]);
  }

  lemma PrefixIs(ns: string, a: Algorithm)
    requires ValidKeyPrefix(ns)
    ensures ResolvePrefix(Some(ns), a) == Ok(ns + Middle(a))
  {
    hide TypeName, ValidKeyPrefix;
    assert ns + ":" + "v1" + ":" + TypeName(a) + ":" == ns + (":" + "v1" + ":" + TypeName(a) + ":");
  }

  lemma SuffixOf(front: string, key: string, window: Option<int>)
    ensures Suffix(front + key, window) == front + Suffix(key, window)
  {
    if window.Some? { Regroup(front, key, ":period:", Decimal(window.value)); }
  }

  // ----- the structured keys of the store

  /** The string the memory backend uses for a structured key of a limiter. */
  function Render(prefix: string, k: S.Key): string {
    match k
    case Plain(user) => StorageKey(prefix, user, None)
    case Window(user, i) => StorageKey(prefix, user, Some(i))
  }

  /** Under one prefix, a limiter's structured keys and their strings correspond one to one, whatever the users are
      called. */
  lemma RenderIsInjective(prefix: string, k: S.Key, l: S.Key)
    requires k.Plain? == l.Plain?
    ensures Render(prefix, k) == Render(prefix, l) <==> k == l
  {
    if k.Plain? {
      assert Render(prefix, k)[|prefix|..] == k.user && Render(prefix, l)[|prefix|..] == l.user;
    } else {
      RenderSplits(prefix, k.user, k.index);
      RenderSplits(prefix, l.user, l.index);
      assert (prefix + k.user)[|prefix|..] == k.user && (prefix + l.user)[|prefix|..] == l.user;
    }
  }

  lemma RenderSplits(prefix: string, user: string, i: int)
    ensures var s := Render(prefix, S.Window(user, i));
      ParseDecimal(AfterLast(s, ':')) == i && BeforeLast(BeforeLast(s, ':'), ':') == prefix + user
  {
    hide AfterLast, BeforeLast, Decimal, ParseDecimal, Suffix;
    DecimalRoundTrip(i);
    WindowedShape(prefix, user, i);
    var keyed := prefix + user;
    SplitLast(keyed + [':'] + "period", Decimal(i), ':');
    SplitLast(keyed, "period", ':');
  }

  lemma FirstFieldIs(a: string, x: string, b: string, y: string)
    requires ':' !in a && ':' !in b && a + [':'] + x == b + [':'] + y
    ensures a == b
  {
    var s := a + [':'] + x;
    assert s[|a|] == ':' && s[|b|] == ':';
    assert s[..|a|] == a && s[..|b|] == b;
  }

  /** What a structured key adds to its limiter's prefix. */
  function WindowedSuffix(k: S.Key): string {
    Suffix(k.user, if k.Plain? then None else Some(k.index))
  }

  lemma RenderShape(keyPrefix: Option<string>, a: Algorithm, k: S.Key)
    requires ResolvePrefix(keyPrefix, a).Ok?
    ensures Render(ResolvePrefix(keyPrefix, a).value, k) ==
      (Namespace(keyPrefix) + [':'] + "v1" + [':']) + (TypeName(a) + [':'] + WindowedSuffix(k))
  {
    PrefixShape(keyPrefix, a);
    hide TypeName, ResolvePrefix, Namespace, Suffix;
    Regroup(Namespace(keyPrefix) + [':'] + "v1" + [':'], TypeName(a), [':'], WindowedSuffix(k));
    hide WindowedSuffix;
  }

  /** Main result: limiters of one namespace that share a store never use each other's keys, whatever the users are
      called: the algorithm and the structured key are determined by the string. */
  lemma MixedKeysAreInjective(keyPrefix: Option<string>, a: Algorithm, k: S.Key, b: Algorithm, l: S.Key)
    requires ResolvePrefix(keyPrefix, a).Ok? && ResolvePrefix(keyPrefix, b).Ok?
    requires (k.Plain? <==> a.IsBucket()) && (l.Plain? <==> b.IsBucket())
    ensures var (p1, p2) := (ResolvePrefix(keyPrefix, a).value, ResolvePrefix(keyPrefix, b).value);
      Render(p1, k) == Render(p2, l) <==> a == b && k == l
  {
    hide *;
    var (s, t) := (Render(ResolvePrefix(keyPrefix, a).value, k), Render(ResolvePrefix(keyPrefix, b).value, l));
    if s == t {
      var front, x, y := Namespace(keyPrefix) + [':'] + "v1" + [':'], WindowedSuffix(k), WindowedSuffix(l);
      RenderShape(keyPrefix, a, k);
      RenderShape(keyPrefix, b, l);
      TypeNames(a);
      TypeNames(b);
      assert s[|front|..] == TypeName(a) + [':'] + x && t[|front|..] == TypeName(b) + [':'] + y;
      FirstFieldIs(TypeName(a), x, TypeName(b), y);
      assert a == b;
      SameKind(a, k, l);
      RenderIsInjective(ResolvePrefix(keyPrefix, a).value, k, l);
    }
  }

  lemma SameKind(a: Algorithm, k: S.Key, l: S.Key)
    requires (k.Plain? <==> a.IsBucket()) && (l.Plain? <==> a.IsBucket())
    ensures k.Plain? == l.Plain?
  {
  }
}
