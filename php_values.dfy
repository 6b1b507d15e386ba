/** The slice of PHP's value model and standard functions that the service relies on:
    arrays as ordered key/value sequences, PHP's integer-key normalisation, `trim`,
    `empty`, truthiness, `array_merge`, Laravel's `Arr::get`, and the coercion a
    `?string` return declaration applies in PHP's default (coercive) typing mode. */
module PhpValues {
  import opened Wrappers

  /** An array key after PHP's normalisation: an integer, or a string that is not
      the canonical decimal form of a 64-bit integer. */
  datatype Key = IntKey(n: int) | StrKey(s: string)

  /** The values that `json_decode($body, true)` produces and that the service builds.
      An array is an ordered sequence of (key, value) entries. */
  datatype Value =
    | Null
    | Bool(b: bool)
    | Int(i: int)
    | Str(s: string)
    | Arr(entries: seq<(Key, Value)>)

  type Entries = seq<(Key, Value)>

  const MaxInt64: int := 0x7FFF_FFFF_FFFF_FFFF
  const MinInt64: int := -0x8000_0000_0000_0000

  // ---------------------------------------------------------------------------
  // Arrays as entry sequences

  predicate HasKey(entries: Entries, k: Key) {
    exists i :: 0 <= i < |entries| && entries[i].0 == k
  }

  /** Every key occurs once, as in every PHP array. */
  predicate DistinctKeys(entries: Entries) {
    forall i, j :: 0 <= i < j < |entries| ==> entries[i].0 != entries[j].0
  }

  /** The keys are 0, 1, ..., in order: what `array_is_list` accepts. */
  predicate IsList(entries: Entries) {
    forall i :: 0 <= i < |entries| ==> entries[i].0 == IntKey(i)
  }

  function Values(entries: Entries): (vs: seq<Value>)
    ensures |vs| == |entries|
  {
    if entries == [] then [] else [entries[0].1] + Values(entries[1..])
  }

  /** `$array[$k]` when `array_key_exists($k, $array)`, and nothing otherwise. */
  function Lookup(entries: Entries, k: Key): (r: Option<Value>)
    ensures r.Some? <==> HasKey(entries, k)
    ensures r.Some? ==> exists i :: 0 <= i < |entries| && entries[i] == (k, r.value)
    ensures DistinctKeys(entries) ==>
              forall i :: 0 <= i < |entries| && entries[i].0 == k ==> r == Some(entries[i].1)
  {
    if entries == [] then None
    else if entries[0].0 == k then Some(entries[0].1)
    else
      var r := Lookup(entries[1..], k);
      assert r.Some? ==> HasKey(entries, k) by {
        if r.Some? {
          var i :| 0 <= i < |entries[1..]| && entries[1..][i].0 == k;
          assert entries[i + 1].0 == k;
        }
      }
      assert HasKey(entries, k) ==> r.Some? by {
        if HasKey(entries, k) {
          var i :| 0 <= i < |entries| && entries[i].0 == k;
          assert entries[1..][i - 1].0 == k;
        }
      }
      assert r.Some? ==> exists i :: 0 <= i < |entries| && entries[i] == (k, r.value) by {
        if r.Some? {
          var i :| 0 <= i < |entries[1..]| && entries[1..][i] == (k, r.value);
          assert entries[i + 1] == (k, r.value);
        }
      }
      r
  }

  /** `isset($array[$k])`: the key is present and its value is not null. */
  predicate Isset(v: Value, k: Key) {
    v.Arr? && match Lookup(v.entries, k) case Some(x) => x != Null case None => false
  }

  /** `$x ?? $default` applied to an array access: a missing key and a null value both
      give the default. */
  function Coalesce(found: Option<Value>, default: Value): (r: Value)
    ensures found.Some? && found.value != Null ==> r == found.value
    ensures found.None? || found.value == Null ==> r == default
  {
    match found
    case Some(x) => if x != Null then x else default
    case None => default
  }

  // ---------------------------------------------------------------------------
  // Truthiness, `empty` and `trim`

  /** A string is falsy in PHP exactly when it is "" or "0". */
  predicate StringTruthy(s: string) {
    s != "" && s != "0"
  }

  /** PHP's boolean conversion of a value. */
  predicate Truthy(v: Value) {
    match v
    case Null => false
    case Bool(b) => b
    case Int(i) => i != 0
    case Str(s) => StringTruthy(s)
    case Arr(e) => e != []
  }

  /** The characters `trim` strips by default: space, tab, newline, carriage return,
      NUL and vertical tab. */
  predicate IsTrimmed(c: char) {
    c == ' ' || c == '\t' || c == '\n' || c == '\r' || c == '\0' || c as int == 11
  }

  function TrimStart(s: string): (r: string)
    ensures |r| <= |s| && r == s[|s| - |r|..]
    ensures forall i :: 0 <= i < |s| - |r| ==> IsTrimmed(s[i])
    ensures r == [] || !IsTrimmed(r[0])
  {
    if s != [] && IsTrimmed(s[0]) then TrimStart(s[1..]) else s
  }

  function TrimEnd(s: string): (r: string)
    ensures |r| <= |s| && r == s[..|r|]
    ensures forall i :: |r| <= i < |s| ==> IsTrimmed(s[i])
    ensures r == [] || !IsTrimmed(r[|r| - 1])
  {
    if s != [] && IsTrimmed(s[|s| - 1]) then TrimEnd(s[..|s| - 1]) else s
  }

  /** `r` is the infix of `s` starting at `lo`, and everything around it in `s` is
      a stripped character. */
  predicate StrippedAt(s: string, r: string, lo: int) {
    0 <= lo <= |s| - |r| && r == s[lo..lo + |r|]
    && (forall i :: 0 <= i < lo ==> IsTrimmed(s[i]))
    && (forall i :: lo + |r| <= i < |s| ==> IsTrimmed(s[i]))
  }

  /** `trim($s)`: the longest infix of `s` that neither starts nor ends with a
      stripped character, everything around it being stripped characters. */
  function Trim(s: string): (r: string)
    ensures exists lo :: StrippedAt(s, r, lo)
    ensures r == [] || (!IsTrimmed(r[0]) && !IsTrimmed(r[|r| - 1]))
  {
    var a := TrimStart(s);
    var r := TrimEnd(a);
    var lo := |s| - |a|;
    assert r == s[lo..lo + |r|];
    assert forall i :: lo + |r| <= i < |s| ==> s[i] == a[i - lo];
    assert StrippedAt(s, r, lo);
    r
  }

  lemma TrimEmptyIffBlank(s: string)
    ensures Trim(s) == [] <==> forall i :: 0 <= i < |s| ==> IsTrimmed(s[i])
  {
    var r := Trim(s);
    var lo :| StrippedAt(s, r, lo);
    if r != [] {
      assert s[lo] == r[0];
    }
  }

  /** `empty($s)` for a string. */
  predicate EmptyString(s: string) {
    s == "" || s == "0"
  }

  // ---------------------------------------------------------------------------
  // Decimal integers: `(string) $int` and the integer-key rule for strings

  predicate IsDigit(c: char) {
    '0' <= c <= '9'
  }

  predicate AllDigits(s: string) {
    forall i :: 0 <= i < |s| ==> IsDigit(s[i])
  }

  function DigitChar(d: int): (c: char)
    requires 0 <= d < 10
    ensures IsDigit(c) && c as int - '0' as int == d
  {
    ('0' as int + d) as char
  }

  /** The number a string of decimal digits denotes. */
  function DecimalValue(s: string): (n: nat)
    requires AllDigits(s)
  {
    if s == [] then 0 else DecimalValue(s[..|s| - 1]) * 10 + (s[|s| - 1] as int - '0' as int)
  }

  /** The canonical decimal form of a natural number: digits, no leading zero. */
  predicate IsCanonicalNatural(s: string) {
    s != [] && AllDigits(s) && (s[0] != '0' || |s| == 1)
  }

  /** `(string) $n` for a non-negative integer. */
  function NatToDecimal(n: nat): (r: string)
    ensures IsCanonicalNatural(r)
    ensures DecimalValue(r) == n
    ensures r == "0" <==> n == 0
  {
    if n < 10 then [DigitChar(n)]
    else
      var p := NatToDecimal(n / 10);
      var r := p + [DigitChar(n % 10)];
      assert r[..|r| - 1] == p;
      r
  }

  /** `(string) $i` for any integer. */
  function IntToDecimal(i: int): (r: string)
    ensures r != [] && (i < 0 <==> r[0] == '-')
    ensures i >= 0 ==> r == NatToDecimal(i)
    ensures i < 0 ==> r[1..] == NatToDecimal(-i)
  {
    if i < 0 then "-" + NatToDecimal(-i) else NatToDecimal(i)
  }

  lemma {:induction false} CanonicalValueAtLeastTen(s: string)
    requires IsCanonicalNatural(s) && |s| >= 2
    ensures DecimalValue(s) >= 10
  {
    var p := s[..|s| - 1];
    if |p| >= 2 {
      assert p[0] == s[0];
      CanonicalValueAtLeastTen(p);
    } else {
      assert p == [s[0]] && s[0] != '0';
      assert DecimalValue(p) == DecimalValue([]) * 10 + (s[0] as int - '0' as int);
    }
  }

  /** Printing a canonical decimal's value gives the decimal back. */
  lemma {:induction false} NatToDecimalOfValue(s: string)
    requires IsCanonicalNatural(s)
    ensures NatToDecimal(DecimalValue(s)) == s
  {
    if |s| == 1 {
      assert DecimalValue(s) == DecimalValue([]) * 10 + (s[0] as int - '0' as int);
    } else {
      var p := s[..|s| - 1];
      assert p[0] == s[0];
      CanonicalValueAtLeastTen(s);
      NatToDecimalOfValue(p);
      var n := DecimalValue(s);
      assert n / 10 == DecimalValue(p) && n % 10 == s[|s| - 1] as int - '0' as int;
      assert s == p + [s[|s| - 1]];
    }
  }

  /** The integer PHP uses as the array key for the string `s`, if any: `s` must be
      "0", or an optional minus sign followed by digits without a leading zero, and
      its value must fit in a signed 64-bit integer; "-0" stays a string. */
  function IntegerKeyValue(s: string): (r: Option<int>)
    ensures r.Some? ==> MinInt64 <= r.value <= MaxInt64 && IntToDecimal(r.value) == s
  {
    if IsCanonicalNatural(s) && DecimalValue(s) <= MaxInt64 then
      NatToDecimalOfValue(s);
      Some(DecimalValue(s))
    else if |s| >= 2 && s[0] == '-' && s[1] != '0' && IsCanonicalNatural(s[1..])
            && DecimalValue(s[1..]) <= -MinInt64 then
      NatToDecimalOfValue(s[1..]);
      assert s == "-" + s[1..];
      var m: int := DecimalValue(s[1..]);
      Some(-m)
    else None
  }

  /** The key PHP uses for the string `s` in `$array[$s]` and `array_key_exists`. */
  function KeyOf(s: string): (k: Key)
    ensures k.IntKey? ==> IntToDecimal(k.n) == s && MinInt64 <= k.n <= MaxInt64
    ensures k.StrKey? ==> k.s == s
    ensures s != [] && !IsDigit(s[0]) && s[0] != '-' ==> k == StrKey(s)
  {
    if s == [] || (!IsDigit(s[0]) && s[0] != '-') then StrKey(s)
    else match IntegerKeyValue(s)
      case Some(n) => IntKey(n)
      case None => StrKey(s)
  }

  /** Every 64-bit integer written in decimal is read back as that integer key. */
  lemma KeyOfDecimal(n: int)
    requires MinInt64 <= n <= MaxInt64
    ensures KeyOf(IntToDecimal(n)) == IntKey(n)
  {
    var s := IntToDecimal(n);
    if n >= 0 {
      assert IsCanonicalNatural(s) && DecimalValue(s) == n;
      assert IntegerKeyValue(s) == Some(n);
    } else {
      var t := NatToDecimal(-n);
      assert s == "-" + t && s[1..] == t;
      assert !IsCanonicalNatural(s) by {
        assert !IsDigit(s[0]);
      }
      assert t[0] != '0' by {
        assert t != "0";
        assert |t| == 1 ==> t == [t[0]];
      }
      assert IntegerKeyValue(s) == Some(n);
    }
  }

  // ---------------------------------------------------------------------------
  // `explode` and Laravel's `Arr::get`

  /** `implode` with a one-character glue. */
  function Join(parts: seq<string>, sep: char): string
    requires parts != []
  {
    if |parts| == 1 then parts[0] else parts[0] + [sep] + Join(parts[1..], sep)
  }

  /** `explode($sep, $s)`: the pieces between the separators, none of which contains one. */
  function Split(s: string, sep: char): (parts: seq<string>)
    ensures parts != []
    ensures forall i :: 0 <= i < |parts| ==> sep !in parts[i]
    ensures Join(parts, sep) == s
  {
    if s == [] then [""]
    else
      var rest := Split(s[1..], sep);
      if s[0] == sep then
        [""] + rest
      else
        var parts := [[s[0]] + rest[0]] + rest[1..];
        assert parts[1..] == rest[1..];
        parts
  }

  lemma SplitNoSeparator(a: string, sep: char)
    requires sep !in a
    ensures Split(a, sep) == [a]
  {
    if a != [] {
      assert sep !in a[1..];
      SplitNoSeparator(a[1..], sep);
      assert [a[0]] + a[1..] == a;
    }
  }

  /** A piece without the separator, then the separator, splits off as one part. */
  lemma {:induction false} SplitPiece(a: string, sep: char, rest: string)
    requires sep !in a
    ensures Split(a + [sep] + rest, sep) == [a] + Split(rest, sep)
  {
    var s := a + [sep] + rest;
    if a == [] {
      assert s[0] == sep && s[1..] == rest;
    } else {
      assert s[0] == a[0] && s[1..] == a[1..] + [sep] + rest;
      assert sep !in a[1..];
      SplitPiece(a[1..], sep, rest);
      assert [a[0]] + a[1..] == a;
    }
  }

  /** `explode` undoes `implode` when no piece contains the separator. */
  lemma {:induction false} SplitJoin(parts: seq<string>, sep: char)
    requires parts != [] && forall i :: 0 <= i < |parts| ==> sep !in parts[i]
    ensures Split(Join(parts, sep), sep) == parts
  {
    if |parts| == 1 {
      SplitNoSeparator(parts[0], sep);
    } else {
      assert sep !in parts[0];
      SplitJoin(parts[1..], sep);
      SplitPiece(parts[0], sep, Join(parts[1..], sep));
    }
  }

  lemma JoinLonger(parts: seq<string>, sep: char)
    requires |parts| >= 2
    ensures |Join(parts, sep)| > |parts[0]|
  {
  }

  /** Follows the segments of a dotted key downwards, as the loop of `Arr::get` does. */
  function Descend(v: Value, segments: seq<string>): Value
  {
    if segments == [] then v
    else if v.Arr? && HasKey(v.entries, KeyOf(segments[0])) then
      Descend(Lookup(v.entries, KeyOf(segments[0])).value, segments[1..])
    else Null
  }

  /** Laravel's `Arr::get($array, $key)` with a null default: a non-array gives null;
      a key present verbatim wins; a key without a dot that is missing gives null;
      otherwise the dotted path is followed, null as soon as a step is missing. */
  function ArrGet(v: Value, key: string): (r: Value)
    ensures !v.Arr? ==> r == Null
    ensures v.Arr? && HasKey(v.entries, KeyOf(key)) ==> r == Lookup(v.entries, KeyOf(key)).value
    ensures v.Arr? && !HasKey(v.entries, KeyOf(key)) && '.' in key ==> r == Descend(v, Split(key, '.'))
    ensures v.Arr? && !HasKey(v.entries, KeyOf(key)) && '.' !in key ==> r == Null
  {
    if !v.Arr? then Null
    else match Lookup(v.entries, KeyOf(key))
      case Some(x) => x
      case None => if '.' in key then Descend(v, Split(key, '.')) else Null
  }

  /** A value in which `segments` lead, one single-entry array per step, to `leaf`. */
  function Nest(segments: seq<string>, leaf: Value): Value
  {
    if segments == [] then leaf else Arr([(KeyOf(segments[0]), Nest(segments[1..], leaf))])
  }

  /** Following the path that built a nested value finds its leaf again. */
  lemma {:induction false} DescendNest(segments: seq<string>, leaf: Value)
    ensures Descend(Nest(segments, leaf), segments) == leaf
  {
    if segments != [] {
      var v := Nest(segments, leaf);
      assert v.entries[0].0 == KeyOf(segments[0]);
      DescendNest(segments[1..], leaf);
    }
  }

  lemma NestTwo(a: string, b: string, leaf: Value)
    ensures Nest([a, b], leaf) == Arr([(KeyOf(a), Arr([(KeyOf(b), leaf)]))])
  {
    assert [a, b][1..] == [b] && [b][1..] == [];
    assert Nest([b], leaf) == Arr([(KeyOf(b), Nest([], leaf))]);
  }

  lemma NestFour(a: string, b: string, c: string, d: string, leaf: Value)
    ensures Nest([a, b, c, d], leaf) == Arr([(KeyOf(a), Arr([(KeyOf(b), Nest([c, d], leaf))]))])
  {
    assert [a, b, c, d][1..] == [b, c, d] && [b, c, d][1..] == [c, d];
  }

  /** Different strings are different keys. */
  lemma KeyOfInjective(x: string, y: string)
    requires KeyOf(x) == KeyOf(y)
    ensures x == y
  {
  }

  /** `Arr::get` with a dotted key finds the leaf of the nested value its segments
      build: the outer array holds only the first segment, never the whole key. */
  lemma ArrGetNest(segments: seq<string>, leaf: Value)
    requires |segments| >= 2 && forall i :: 0 <= i < |segments| ==> '.' !in segments[i]
    ensures ArrGet(Nest(segments, leaf), Join(segments, '.')) == leaf
  {
    var key := Join(segments, '.');
    var v := Nest(segments, leaf);
    SplitJoin(segments, '.');
    JoinLonger(segments, '.');
    assert key[|segments[0]|] == '.';
    if KeyOf(key) == KeyOf(segments[0]) {
      KeyOfInjective(key, segments[0]);
    }
    assert !HasKey(v.entries, KeyOf(key));
    DescendNest(segments, leaf);
  }

  /** `Arr::get` with a dotted key gives null when neither the whole key nor its first
      segment is a key of the outer array. */
  lemma ArrGetMissing(v: Value, segments: seq<string>)
    requires |segments| >= 2 && forall i :: 0 <= i < |segments| ==> '.' !in segments[i]
    requires v.Arr? && !HasKey(v.entries, KeyOf(segments[0]))
    requires !HasKey(v.entries, KeyOf(Join(segments, '.')))
    ensures ArrGet(v, Join(segments, '.')) == Null
  {
    SplitJoin(segments, '.');
    JoinLonger(segments, '.');
    assert Join(segments, '.')[|segments[0]|] == '.';
  }

  // ---------------------------------------------------------------------------
  // `array_merge`

  /** `$array[$k] = $v` for a string key: overwrite in place or append. */
  function Put(entries: Entries, k: Key, v: Value): (r: Entries)
    ensures HasKey(entries, k) ==> |r| == |entries|
    ensures !HasKey(entries, k) ==> r == entries + [(k, v)]
  {
    if entries == [] then [(k, v)]
    else if entries[0].0 == k then [(k, v)] + entries[1..]
    else
      var rest := Put(entries[1..], k, v);
      assert HasKey(entries, k) ==> HasKey(entries[1..], k) by {
        if HasKey(entries, k) {
          var i :| 0 <= i < |entries| && entries[i].0 == k;
          assert entries[1..][i - 1].0 == k;
        }
      }
      assert !HasKey(entries, k) ==> !HasKey(entries[1..], k) by {
        if HasKey(entries[1..], k) {
          var i :| 0 <= i < |entries[1..]| && entries[1..][i].0 == k;
          assert entries[i + 1].0 == k;
        }
      }
      [entries[0]] + rest
  }

  /** One step of `array_merge`: integer keys are renumbered with the next free index,
      string keys are assigned. The state is the array built so far and its next index. */
  function MergeEntry(acc: (Entries, nat), e: (Key, Value)): (Entries, nat)
  {
    match e.0
    case IntKey(_) => (acc.0 + [(IntKey(acc.1), e.1)], acc.1 + 1)
    case StrKey(_) => (Put(acc.0, e.0, e.1), acc.1)
  }

  function MergeAll(acc: (Entries, nat), src: Entries): (r: (Entries, nat))
    ensures |r.0| <= |acc.0| + |src|
    ensures AllIntKeys(src) ==> |r.0| == |acc.0| + |src|
    decreases |src|
  {
    if src == [] then acc else MergeAll(MergeEntry(acc, src[0]), src[1..])
  }

  /** `array_merge($a, $b)`. */
  function ArrayMerge(a: Entries, b: Entries): (r: Entries)
    ensures |r| <= |a| + |b|
    ensures AllIntKeys(a) && AllIntKeys(b) ==> |r| == |a| + |b|
  {
    MergeAll(MergeAll(([], 0), a), b).0
  }

  /** One merge step appends the value, unless a string key is overwritten. */
  lemma MergeEntryAppends(acc: (Entries, nat), e: (Key, Value))
    requires e.0.StrKey? ==> !HasKey(acc.0, e.0)
    ensures MergeEntry(acc, e).0 == acc.0 + [(MergeEntry(acc, e).0[|acc.0|].0, e.1)]
  {
  }

  /** A merge step adds no string key other than the one it is given. */
  lemma MergeEntryNoNewKey(acc: (Entries, nat), e: (Key, Value), k: Key)
    requires k.StrKey? && k != e.0 && !HasKey(acc.0, k)
    ensures !HasKey(MergeEntry(acc, e).0, k)
  {
    var next := MergeEntry(acc, e).0;
    if e.0.StrKey? && HasKey(acc.0, e.0) {
      forall j | 0 <= j < |next| ensures next[j].0 != k {
        PutKeys(acc.0, e.0, e.1, j);
      }
    } else {
      MergeEntryAppends(acc, e);
    }
  }

  /** Overwriting keeps every key where it was. */
  lemma {:induction false} PutKeys(entries: Entries, k: Key, v: Value, j: int)
    requires HasKey(entries, k) && 0 <= j < |entries|
    ensures Put(entries, k, v)[j].0 == entries[j].0
  {
    if entries[0].0 != k && j > 0 {
      assert HasKey(entries[1..], k) by {
        var i :| 0 <= i < |entries| && entries[i].0 == k;
        assert entries[1..][i - 1].0 == k;
      }
      PutKeys(entries[1..], k, v, j - 1);
    }
  }

  lemma {:induction false} ValuesAppend(a: Entries, e: (Key, Value))
    ensures Values(a + [e]) == Values(a) + [e.1]
  {
    if a != [] {
      assert (a + [e])[1..] == a[1..] + [e];
      ValuesAppend(a[1..], e);
    }
  }

  /** After merging the first entry, the remaining string keys are still new. */
  lemma MergeEntryKeepsRestNew(acc: (Entries, nat), src: Entries)
    requires src != [] && DistinctKeys(src)
    requires forall i :: 0 <= i < |src| && src[i].0.StrKey? ==> !HasKey(acc.0, src[i].0)
    ensures DistinctKeys(src[1..])
    ensures forall i :: 0 <= i < |src[1..]| && src[1..][i].0.StrKey? ==>
              !HasKey(MergeEntry(acc, src[0]).0, src[1..][i].0)
  {
    forall i | 0 <= i < |src[1..]| && src[1..][i].0.StrKey?
      ensures !HasKey(MergeEntry(acc, src[0]).0, src[1..][i].0)
    {
      assert src[1..][i] == src[i + 1];
      MergeEntryNoNewKey(acc, src[0], src[i + 1].0);
    }
    forall i, j | 0 <= i < j < |src[1..]| ensures src[1..][i].0 != src[1..][j].0 {
      assert src[1..][i] == src[i + 1] && src[1..][j] == src[j + 1];
    }
  }

  /** Merging entries whose string keys are new keeps every value, in order. */
  lemma {:induction false} MergeAllKeepsValues(acc: (Entries, nat), src: Entries)
    requires DistinctKeys(src)
    requires forall i :: 0 <= i < |src| && src[i].0.StrKey? ==> !HasKey(acc.0, src[i].0)
    ensures Values(MergeAll(acc, src).0) == Values(acc.0) + Values(src)
    decreases |src|
  {
    if src != [] {
      var next := MergeEntry(acc, src[0]);
      assert Values(next.0) == Values(acc.0) + [src[0].1] by {
        MergeEntryAppends(acc, src[0]);
        ValuesAppend(acc.0, (next.0[|acc.0|].0, src[0].1));
      }
      assert Values(MergeAll(next, src[1..]).0) == Values(next.0) + Values(src[1..]) by {
        MergeEntryKeepsRestNew(acc, src);
        MergeAllKeepsValues(next, src[1..]);
      }
      calc {
        Values(MergeAll(acc, src).0);
        Values(next.0) + Values(src[1..]);
        Values(acc.0) + [src[0].1] + Values(src[1..]);
        { assert Values(src) == [src[0].1] + Values(src[1..]); }
        Values(acc.0) + Values(src);
      }
    }
  }

  /** `array_merge($a, [$x])` ends with `$x`, whatever `$a` holds; when `$a`'s keys
      are distinct (as in every PHP array) its values come first, in order. */
  lemma ArrayMergeAppend(a: Entries, x: Value)
    ensures var r := ArrayMerge(a, [(IntKey(0), x)]); r != [] && r[|r| - 1].1 == x
    ensures DistinctKeys(a) ==> Values(ArrayMerge(a, [(IntKey(0), x)])) == Values(a) + [x]
  {
    var mid := MergeAll(([], 0), a);
    var r := ArrayMerge(a, [(IntKey(0), x)]);
    var e := (IntKey(0), x);
    assert [e][1..] == [];
    assert MergeAll(mid, [e]) == MergeAll(MergeEntry(mid, e), []);
    assert r == mid.0 + [(IntKey(mid.1), x)];
    if DistinctKeys(a) {
      MergeAllKeepsValues(([], 0), a);
      ValuesAppend(mid.0, (IntKey(mid.1), x));
    }
  }

  /** Every key is an integer key, as in an array PHP built as a list. */
  predicate AllIntKeys(entries: Entries) {
    forall i :: 0 <= i < |entries| ==> entries[i].0.IntKey?
  }

  /** Merging integer-keyed entries into a list appends their values, renumbered
      from the list's length on. */
  lemma {:induction false} MergeAllIntKeys(acc: Entries, src: Entries)
    requires IsList(acc) && AllIntKeys(src)
    ensures var r := MergeAll((acc, |acc|), src);
            && |r.0| == |acc| + |src| && r.1 == |r.0|
            && r.0[..|acc|] == acc
            && forall i :: 0 <= i < |src| ==> r.0[|acc| + i] == (IntKey(|acc| + i), src[i].1)
    decreases |src|
  {
    if src != [] {
      var next := acc + [(IntKey(|acc|), src[0].1)];
      assert MergeEntry((acc, |acc|), src[0]) == (next, |next|);
      assert AllIntKeys(src[1..]) by {
        forall i | 0 <= i < |src[1..]| ensures src[1..][i].0.IntKey? {
          assert src[1..][i] == src[i + 1];
        }
      }
      MergeAllIntKeys(next, src[1..]);
      var r := MergeAll((acc, |acc|), src);
      assert r == MergeAll((next, |next|), src[1..]);
      assert r.0[..|acc|] == r.0[..|next|][..|acc|];
      forall i | 0 <= i < |src| ensures r.0[|acc| + i] == (IntKey(|acc| + i), src[i].1) {
        if i == 0 {
          assert r.0[|acc|] == r.0[..|next|][|acc|];
        } else {
          assert r.0[|acc| + i] == r.0[|next| + (i - 1)];
          assert src[1..][i - 1] == src[i];
        }
      }
    }
  }

  /** `array_merge` of a list and integer-keyed entries: the list, then the entries'
      values under the next indices. */
  lemma ArrayMergeLists(a: Entries, b: Entries)
    requires IsList(a) && AllIntKeys(b)
    ensures var r := ArrayMerge(a, b);
            && |r| == |a| + |b| && r[..|a|] == a
            && forall i :: 0 <= i < |b| ==> r[|a| + i] == (IntKey(|a| + i), b[i].1)
  {
    MergeAllOfList(a);
    MergeAllIntKeys(a, b);
  }

  /** Merging a list into nothing gives the list back. */
  lemma MergeAllOfList(a: Entries)
    requires IsList(a)
    ensures MergeAll(([], 0), a) == (a, |a|)
  {
    var first := MergeAll(([], 0), a);
    assert |first.0| == |a| == first.1 && forall i :: 0 <= i < |a| ==> first.0[i] == a[i] by {
      assert AllIntKeys(a);
      MergeAllIntKeys([], a);
      forall i | 0 <= i < |a| ensures first.0[i] == a[i] {
        assert first.0[0 + i] == (IntKey(i), a[i].1);
      }
    }
    assert first.0 == a;
  }

  // ---------------------------------------------------------------------------
  // `?string` return declarations

  datatype TypeError = TypeError

  /** What a `?string` return declaration makes of a value in coercive typing mode:
      null stays null, a string is kept, an integer is written in decimal, a boolean
      becomes "1" or "", and an array is refused with a TypeError. */
  function ToNullableString(v: Value): (r: Result<Option<string>, TypeError>)
    ensures r.Failure? <==> v.Arr?
    ensures r == Success(None) <==> v.Null?
    ensures v.Str? ==> r == Success(Some(v.s))
    ensures v.Int? ==> r == Success(Some(IntToDecimal(v.i)))
    ensures v.Bool? ==> r == Success(Some(if v.b then "1" else ""))
  {
    match v
    case Null => Success(None)
    case Bool(b) => Success(Some(if b then "1" else ""))
    case Int(i) => Success(Some(IntToDecimal(i)))
    case Str(s) => Success(Some(s))
    case Arr(_) => Failure(TypeError)
  }

  /** The coercion keeps PHP truthiness: a scalar is truthy exactly when the string
      it becomes is. */
  lemma ToNullableStringKeepsTruthiness(v: Value)
    ensures !v.Arr? && !v.Null? ==>
              ToNullableString(v).Success? && ToNullableString(v).value.Some?
              && (StringTruthy(ToNullableString(v).value.value) <==> Truthy(v))
  {
    if v.Int? && v.i < 0 {
      assert IntToDecimal(v.i)[0] == '-';
    }
  }
}
