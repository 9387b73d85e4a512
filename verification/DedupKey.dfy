/** The bytes fed to the duplicate-key hash (switchyardd/src/dedup.rs, `key`).

    Text is its UTF-8 bytes, which is also how the program compares and sorts it. */
module DedupKey {
  import opened Common

  type Text = seq<Byte>

  const COMMA: Byte := 44
  const MINUS: Byte := 45
  const ZERO: Byte := 48
  const U64: nat := 18446744073709551616

  // ---------- length-prefixed fields ----------

  /** `n` in `width` little-endian bytes. */
  function LittleEndian(n: nat, width: nat): (r: Text)
    ensures |r| == width
  {
    if width == 0 then [] else [n % 256] + LittleEndian(n / 256, width - 1)
  }

  function FromLittleEndian(s: Text): nat {
    if s == [] then 0 else s[0] + 256 * FromLittleEndian(s[1..])
  }

  function Power256(k: nat): nat {
    if k == 0 then 1 else 256 * Power256(k - 1)
  }

  lemma {:induction false} LittleEndianRoundTrip(n: nat, width: nat)
    requires n < Power256(width)
    ensures FromLittleEndian(LittleEndian(n, width)) == n
  {
    if width > 0 {
      LittleEndianRoundTrip(n / 256, width - 1);
      assert LittleEndian(n, width)[1..] == LittleEndian(n / 256, width - 1);
    }
  }

  lemma {:induction false} LengthPrefixRoundTrip(n: nat)
    requires n < U64
    ensures FromLittleEndian(LittleEndian(n, 8)) == n
  {
    assert Power256(4) == 4294967296;
    assert Power256(8) == 256 * (256 * (256 * (256 * Power256(4))));
    LittleEndianRoundTrip(n, 8);
  }

  function Field(f: Text): Text {
    LittleEndian(|f|, 8) + f
  }

  function Fields(fs: seq<Text>): Text {
    if fs == [] then [] else Field(fs[0]) + Fields(fs[1..])
  }

  ghost predicate Fit(fs: seq<Text>) {
    forall i | 0 <= i < |fs| :: |fs[i]| < U64
  }

  /** The length prefix makes one field self-delimiting: whatever follows, the field is read back. */
  lemma {:induction false} FieldIsPrefixFree(f: Text, g: Text, restF: Text, restG: Text)
    requires |f| < U64 && |g| < U64
    requires Field(f) + restF == Field(g) + restG
    ensures f == g && restF == restG
  {
    var whole := Field(f) + restF;
    assert whole[..8] == LittleEndian(|f|, 8) && whole[..8] == LittleEndian(|g|, 8);
    LengthPrefixRoundTrip(|f|);
    LengthPrefixRoundTrip(|g|);
    assert whole[8..8 + |f|] == f && whole[8..8 + |g|] == g;
    assert whole[8 + |f|..] == restF && whole[8 + |g|..] == restG;
  }

  lemma {:induction false} FieldsInjective(fs: seq<Text>, gs: seq<Text>)
    requires |fs| == |gs| && Fit(fs) && Fit(gs) && Fields(fs) == Fields(gs)
    ensures fs == gs
  {
    if fs != [] {
      FieldIsPrefixFree(fs[0], gs[0], Fields(fs[1..]), Fields(gs[1..]));
      FieldsInjective(fs[1..], gs[1..]);
      assert fs == [fs[0]] + fs[1..] && gs == [gs[0]] + gs[1..];
    }
  }

  // ---------- the timestamp ----------

  function Digits(n: nat): (r: Text)
    ensures |r| > 0 && r[0] >= ZERO
  {
    if n < 10 then [ZERO + n] else Digits(n / 10) + [ZERO + n % 10]
  }

  function Value(s: Text): int {
    if s == [] then 0 else 10 * Value(s[..|s| - 1]) + s[|s| - 1] - ZERO
  }

  lemma {:induction false} DigitsRoundTrip(n: nat)
    ensures Value(Digits(n)) == n
  {
    if n < 10 {
      assert Digits(n)[..0] == [];
    } else {
      DigitsRoundTrip(n / 10);
      assert Digits(n)[..|Digits(n)| - 1] == Digits(n / 10);
    }
  }

  /** Decimal text of an integer. */
  function Decimal(n: int): Text {
    if n < 0 then [MINUS] + Digits(-n) else Digits(n)
  }

  /** The number a decimal text stands for. */
  function Number(s: Text): int {
    if s != [] && s[0] == MINUS then -Value(s[1..]) else Value(s)
  }

  /** The text of a number is read back, negative or not. */
  lemma {:induction false} DecimalRoundTrip(n: int)
    ensures Number(Decimal(n)) == n
  {
    DigitsRoundTrip(if n < 0 then -n else n);
    if n < 0 {
      assert Decimal(n)[1..] == Digits(-n);
    }
  }

  lemma {:induction false} DecimalInjective(n: int, m: int)
    requires Decimal(n) == Decimal(m)
    ensures n == m
  {
    DigitsRoundTrip(if n < 0 then -n else n);
    DigitsRoundTrip(if m < 0 then -m else m);
    if n < 0 {
      assert Decimal(n)[1..] == Digits(-n);
      assert Decimal(m)[0] == MINUS;
      assert Decimal(m)[1..] == Digits(-m);
    } else {
      assert Decimal(m)[0] >= ZERO;
    }
  }

  /** Whole seconds of a time in nanoseconds, rounded down. */
  function Seconds(t: Option<int>): Option<int> {
    if t.None? then None else Some(t.value / 1_000_000_000)
  }

  function Stamp(t: Option<int>): Text {
    if t.None? then [] else Decimal(Seconds(t).value)
  }

  /** Two times lie in the same second of the clock, before or after its origin. */
  ghost predicate SameSecond(t: int, u: int) {
    exists s :: InSecond(t, s) && InSecond(u, s)
  }

  predicate InSecond(t: int, s: int) {
    s * 1_000_000_000 <= t < (s + 1) * 1_000_000_000
  }

  ghost predicate SameStamp(t: Option<int>, u: Option<int>) {
    (t.None? && u.None?) || (t.Some? && u.Some? && SameSecond(t.value, u.value))
  }

  lemma {:induction false} StampInjective(t: Option<int>, u: Option<int>)
    ensures Stamp(t) == Stamp(u) <==> SameStamp(t, u)
  {
    if t.Some? && u.Some? {
      var a, b := Seconds(t).value, Seconds(u).value;
      assert InSecond(t.value, a) && InSecond(u.value, b);
      if Stamp(t) == Stamp(u) {
        DecimalInjective(a, b);
      }
    }
  }

  // ---------- sorting the attachment digests ----------

  /** Byte-wise lexicographic order. */
  predicate Leq(a: Text, b: Text) {
    a == [] || (b != [] && (a[0] < b[0] || (a[0] == b[0] && Leq(a[1..], b[1..]))))
  }

  /** The order is that of the first byte in which two texts differ; a text comes before its
      extensions. */
  lemma {:induction false} LeqMeans(a: Text, b: Text)
    ensures Leq(a, b) <==> a <= b || exists n :: 0 <= n < |a| && n < |b| && a[..n] == b[..n] && a[n] < b[n]
  {
    if a != [] && b != [] && a[0] == b[0] {
      LeqMeans(a[1..], b[1..]);
      assert a == [a[0]] + a[1..] && b == [b[0]] + b[1..];
      if n :| 0 <= n < |a[1..]| && n < |b[1..]| && a[1..][..n] == b[1..][..n] && a[1..][n] < b[1..][n] {
        assert a[..n + 1] == [a[0]] + a[1..][..n] && b[..n + 1] == [b[0]] + b[1..][..n];
        assert a[n + 1] < b[n + 1];
      }
      if n :| 0 <= n < |a| && n < |b| && a[..n] == b[..n] && a[n] < b[n] {
        assert n > 0;
        assert a[1..][..n - 1] == a[..n][1..] && b[1..][..n - 1] == b[..n][1..];
        assert a[1..][n - 1] < b[1..][n - 1];
      }
    } else if a != [] && b != [] {
      assert a[..0] == b[..0];
    }
  }

  lemma {:induction false} LeqTotal(a: Text, b: Text)
    ensures Leq(a, b) || Leq(b, a)
    ensures Leq(a, b) && Leq(b, a) ==> a == b
  {
    if a != [] && b != [] {
      LeqTotal(a[1..], b[1..]);
      assert a == [a[0]] + a[1..] && b == [b[0]] + b[1..];
    }
  }

  lemma {:induction false} LeqTransitive(a: Text, b: Text, c: Text)
    requires Leq(a, b) && Leq(b, c)
    ensures Leq(a, c)
  {
    if a != [] && a[0] == b[0] == c[0] {
      LeqTransitive(a[1..], b[1..], c[1..]);
    }
  }

  function Insert(x: Text, s: seq<Text>): seq<Text> {
    if s == [] || Leq(x, s[0]) then [x] + s else [s[0]] + Insert(x, s[1..])
  }

  function Sort(s: seq<Text>): seq<Text> {
    if s == [] then [] else Insert(s[0], Sort(s[1..]))
  }

  ghost predicate Sorted(s: seq<Text>) {
    forall i, j | 0 <= i < j < |s| :: Leq(s[i], s[j])
  }

  lemma {:induction false} SortedCons(x: Text, s: seq<Text>)
    requires Sorted(s) && forall i | 0 <= i < |s| :: Leq(x, s[i])
    ensures Sorted([x] + s)
  {
  }

  lemma {:induction false} InsertKeeps(x: Text, s: seq<Text>)
    ensures multiset(Insert(x, s)) == multiset(s) + multiset{x}
  {
    if s != [] && !Leq(x, s[0]) {
      InsertKeeps(x, s[1..]);
      assert s == [s[0]] + s[1..];
    }
  }

  lemma {:induction false} InsertSorts(x: Text, s: seq<Text>)
    requires Sorted(s)
    ensures Sorted(Insert(x, s))
  {
    if s == [] {
    } else if Leq(x, s[0]) {
      forall i | 0 < i < |s| ensures Leq(x, s[i]) {
        LeqTransitive(x, s[0], s[i]);
      }
      SortedCons(x, s);
    } else {
      LeqTotal(x, s[0]);
      InsertSorts(x, s[1..]);
      InsertKeeps(x, s[1..]);
      var rest := Insert(x, s[1..]);
      forall i | 0 <= i < |rest| ensures Leq(s[0], rest[i]) {
        assert rest[i] in multiset(rest);
        assert rest[i] == x || rest[i] in s[1..];
      }
      SortedCons(s[0], rest);
    }
  }

  lemma {:induction false} SortSorts(s: seq<Text>)
    ensures Sorted(Sort(s)) && multiset(Sort(s)) == multiset(s)
  {
    if s != [] {
      SortSorts(s[1..]);
      InsertSorts(s[0], Sort(s[1..]));
      InsertKeeps(s[0], Sort(s[1..]));
      assert s == [s[0]] + s[1..];
    }
  }

  lemma {:induction false} LeastIsFirst(s: seq<Text>, x: Text)
    requires Sorted(s) && x in s
    ensures Leq(s[0], x)
  {
    LeqTotal(x, x);
  }

  lemma {:induction false} TailMultiset(s: seq<Text>)
    requires s != []
    ensures multiset(s[1..]) == multiset(s) - multiset{s[0]}
  {
    assert s == [s[0]] + s[1..];
  }

  lemma {:induction false} SortedIsUnique(s: seq<Text>, t: seq<Text>)
    requires Sorted(s) && Sorted(t) && multiset(s) == multiset(t)
    ensures s == t
  {
    if s == [] {
      assert |multiset(t)| == 0;
    } else {
      assert |multiset(s)| == |multiset(t)|;
      assert s[0] in multiset(t) && t[0] in multiset(s);
      LeastIsFirst(s, t[0]);
      LeastIsFirst(t, s[0]);
      LeqTotal(s[0], t[0]);
      TailMultiset(s);
      TailMultiset(t);
      SortedIsUnique(s[1..], t[1..]);
      assert s == [s[0]] + s[1..] && t == [t[0]] + t[1..];
    }
  }

  lemma {:induction false} SortIsCanonical(s: seq<Text>, t: seq<Text>)
    ensures Sort(s) == Sort(t) <==> multiset(s) == multiset(t)
  {
    SortSorts(s);
    SortSorts(t);
    if multiset(s) == multiset(t) {
      SortedIsUnique(Sort(s), Sort(t));
    }
  }

  // ---------- joining the attachment digests ----------

  function Join(s: seq<Text>): Text {
    if s == [] then [] else if |s| == 1 then s[0] else s[0] + [COMMA] + Join(s[1..])
  }

  /** What every attachment digest is: not empty and without a comma. */
  ghost predicate Plain(s: seq<Text>) {
    forall i | 0 <= i < |s| :: s[i] != [] && COMMA !in s[i]
  }

  /** What follows the first digest: nothing, or a comma and the rest. */
  function JoinRest(s: seq<Text>): Text
    requires s != []
  {
    if |s| == 1 then [] else [COMMA] + Join(s[1..])
  }

  lemma {:induction false} FirstDigest(s: seq<Text>, t: seq<Text>)
    requires s != [] && t != [] && Plain(s) && Plain(t)
    requires s[0] + JoinRest(s) == t[0] + JoinRest(t)
    ensures |s[0]| >= |t[0]|
  {
    var whole := s[0] + JoinRest(s);
    assert |s[0]| < |whole| ==> whole[|s[0]|] == COMMA;
    assert whole == t[0] + JoinRest(t);
    assert forall n | 0 <= n < |t[0]| :: whole[n] == t[0][n] && t[0][n] in t[0];
  }

  lemma {:induction false} SplitFirst(s: seq<Text>, t: seq<Text>)
    requires s != [] && t != [] && Plain(s) && Plain(t) && Join(s) == Join(t)
    ensures s[0] == t[0] && JoinRest(s) == JoinRest(t)
  {
    assert Join(s) == s[0] + JoinRest(s) && Join(t) == t[0] + JoinRest(t);
    FirstDigest(s, t);
    FirstDigest(t, s);
    var whole := Join(s);
    assert whole[..|s[0]|] == s[0] && whole[..|s[0]|] == t[0];
    assert whole[|s[0]|..] == JoinRest(s) && whole[|s[0]|..] == JoinRest(t);
  }

  lemma {:induction false} JoinInjective(s: seq<Text>, t: seq<Text>)
    requires Plain(s) && Plain(t) && Join(s) == Join(t)
    ensures s == t
  {
    if s != [] && t != [] {
      SplitFirst(s, t);
      if |s| > 1 && |t| > 1 {
        assert JoinRest(s)[1..] == Join(s[1..]) && JoinRest(t)[1..] == Join(t[1..]);
        JoinInjective(s[1..], t[1..]);
      }
      assert s == [s[0]] + s[1..] && t == [t[0]] + t[1..];
    }
  }

  // ---------- the key ----------

  datatype Input = Input(
    protocol: Text, sender: Text, endpoint: Text, body: Text, createdAt: Option<int>, shas: seq<Text>)

  function KeyFields(m: Input): seq<Text> {
    [m.protocol, m.sender, m.endpoint, Stamp(m.createdAt), m.body, Join(Sort(m.shas))]
  }

  /** Each length fits the 64-bit prefix, and the digests are what a digest looks like. */
  ghost predicate WellFormed(m: Input) {
    Fit(KeyFields(m)) && Plain(m.shas)
  }

  /** The same message, up to the order of its attachments and fractions of a second. */
  ghost predicate Same(m: Input, n: Input) {
    && m.protocol == n.protocol && m.sender == n.sender && m.endpoint == n.endpoint && m.body == n.body
    && SameStamp(m.createdAt, n.createdAt)
    && multiset(m.shas) == multiset(n.shas)
  }

  lemma {:induction false} PlainSorted(s: seq<Text>)
    requires Plain(s)
    ensures Plain(Sort(s))
  {
    SortSorts(s);
    forall i | 0 <= i < |Sort(s)| ensures Sort(s)[i] != [] && COMMA !in Sort(s)[i] {
      assert Sort(s)[i] in multiset(s);
    }
  }

  /** The bytes hashed are equal exactly when the messages are the same. */
  lemma {:induction false} KeyIdentifiesMessage(m: Input, n: Input)
    requires WellFormed(m) && WellFormed(n)
    ensures Fields(KeyFields(m)) == Fields(KeyFields(n)) <==> Same(m, n)
  {
    StampInjective(m.createdAt, n.createdAt);
    SortIsCanonical(m.shas, n.shas);
    if Fields(KeyFields(m)) == Fields(KeyFields(n)) {
      var f, g := KeyFields(m), KeyFields(n);
      FieldsInjective(f, g);
      assert f[0] == g[0] && f[1] == g[1] && f[2] == g[2] && f[3] == g[3] && f[4] == g[4] && f[5] == g[5];
      PlainSorted(m.shas);
      PlainSorted(n.shas);
      JoinInjective(Sort(m.shas), Sort(n.shas));
    }
  }

  /** Outside plain digests the join is ambiguous: an empty digest reads as none, and a comma
      inside a digest reads as a boundary. */
  lemma {:induction false} PlainIsNeeded(m: Input)
    ensures var empty := m.(shas := [[]]); var none := m.(shas := []);
            KeyFields(empty) == KeyFields(none) && !Same(empty, none)
    ensures var one := m.(shas := [[97, 44, 98]]); var two := m.(shas := [[97], [98]]);
            KeyFields(one) == KeyFields(two) && !Same(one, two)
  {
    var none: seq<Text> := [];
    var empty: seq<Text> := [[]];
    assert Sort(empty) == empty && |multiset(empty)| == 1 && |multiset(none)| == 0;
    var two: seq<Text> := [[97], [98]];
    var one: seq<Text> := [[97, COMMA, 98]];
    assert two[1..] == [[98]] && Sort(two[1..]) == [[98]];
    assert Leq(two[0], two[1]);
    assert Sort(two) == two && Sort(one) == one;
    assert Join(two) == [97] + [COMMA] + Join([[98]]) == one[0];
    assert |multiset(one)| == 1 && |multiset(two)| == 2;
  }

  /** The loop that feeds the hash, each field behind its length. */
  method FeedFields(fields: seq<Text>) returns (out: Text)
    ensures out == Fields(fields)
  {
    out := [];
    for i := 0 to |fields|
      invariant out + Fields(fields[i..]) == Fields(fields)
    {
      ghost var rest := Fields(fields[i + 1..]);
      assert fields[i..][1..] == fields[i + 1..];
      assert Fields(fields[i..]) == LittleEndian(|fields[i]|, 8) + fields[i] + rest;
      out := out + LittleEndian(|fields[i]|, 8);
      out := out + fields[i];
    }
  }

  /** `key`, up to the hash. */
  method KeyBytes(m: Input) returns (out: Text)
    ensures out == Fields(KeyFields(m))
    ensures out == Field(m.protocol) + Field(m.sender) + Field(m.endpoint) + Field(Stamp(m.createdAt))
                 + Field(m.body) + Field(Join(Sort(m.shas)))
  {
    SixFields(m.protocol, m.sender, m.endpoint, Stamp(m.createdAt), m.body, Join(Sort(m.shas)));
    out := FeedFields(KeyFields(m));
  }

  lemma {:induction false} SixFields(a: Text, b: Text, c: Text, d: Text, e: Text, f: Text)
    ensures Fields([a, b, c, d, e, f]) == Field(a) + Field(b) + Field(c) + Field(d) + Field(e) + Field(f)
  {
    hide Field;
    assert [a, b, c, d, e, f][1..] == [b, c, d, e, f] && [b, c, d, e, f][1..] == [c, d, e, f];
    assert [c, d, e, f][1..] == [d, e, f] && [d, e, f][1..] == [e, f] && [e, f][1..] == [f] && [f][1..] == [];
    assert Fields([e, f]) == Field(e) + Field(f) by {
      assert Fields([f]) == Field(f) + Fields([]);
    }
    assert Fields([c, d, e, f]) == Field(c) + (Field(d) + Fields([e, f]));
  }
}
