/** The two truncation stages (switchyardd/src/transform.rs): `truncate_body` counts characters,
    `render` counts bytes of the UTF-8 text (section 3 of RFC 3629) and cuts on a character
    boundary. */
module Transform {
  import opened Common

  /** The horizontal ellipsis that marks a cut. */
  const MARKER: char := '\U{2026}'

  // ---------- UTF-8 ----------

  predicate Continuation(b: Byte) { 128 <= b < 192 }

  /** Continuation bytes are those whose two highest bits are 10. */
  lemma {:induction false} ContinuationBits(b: Byte)
    ensures Continuation(b) <==> b / 128 == 1 && b / 64 % 2 == 0
  {
  }

  function Utf8(c: char): (r: seq<Byte>)
    ensures 1 <= |r| <= 4 && !Continuation(r[0]) && forall i | 1 <= i < |r| :: Continuation(r[i])
  {
    var n := c as int;
    if n < 0x80 then [n]
    else if n < 0x800 then [192 + n / 64, 128 + n % 64]
    else if n < 0x10000 then [224 + n / 64 / 64, 128 + n / 64 % 64, 128 + n % 64]
    else [240 + n / 64 / 64 / 64, 128 + n / 64 / 64 % 64, 128 + n / 64 % 64, 128 + n % 64]
  }

  /** The scalar value that one encoded character stands for: the free bits of the lead byte,
      then six bits from each continuation byte. */
  function Scalar(r: seq<Byte>): int
    requires 1 <= |r| <= 4
  {
    var lead: int := r[0];
    if |r| == 1 then lead
    else if |r| == 2 then Append(lead - 192, r[1])
    else if |r| == 3 then Append(Append(lead - 224, r[1]), r[2])
    else Append(Append(Append(lead - 240, r[1]), r[2]), r[3])
  }

  function Append(high: int, b: Byte): int { 64 * high + b - 128 }

  /** Each character is encoded in the form its value asks for, and can be read back. */
  lemma {:induction false} Utf8RoundTrip(c: char)
    ensures Scalar(Utf8(c)) == c as int
    ensures var r, n := Utf8(c), c as int;
            if n <= 0x7F then |r| == 1 && r[0] <= 0x7F
            else if n <= 0x7FF then |r| == 2 && 0xC2 <= r[0] <= 0xDF
            else if n <= 0xFFFF then |r| == 3 && 0xE0 <= r[0] <= 0xEF
            else |r| == 4 && 0xF0 <= r[0] <= 0xF4
  {
    var n := c as int;
    assert n == 64 * (n / 64) + n % 64;
    assert n / 64 == 64 * (n / 64 / 64) + n / 64 % 64;
    assert n / 64 / 64 == 64 * (n / 64 / 64 / 64) + n / 64 / 64 % 64;
  }

  function Encode(s: string): seq<Byte> {
    if s == [] then [] else Encode(s[..|s| - 1]) + Utf8(s[|s| - 1])
  }

  function Size(s: string): nat { |Encode(s)| }

  lemma {:induction false} EncodeSnoc(s: string, c: char)
    ensures Encode(s + [c]) == Encode(s) + Utf8(c)
  {
    assert (s + [c])[..|s|] == s;
  }

  /** `str::is_char_boundary`. */
  predicate IsCharBoundary(bytes: seq<Byte>, i: nat) {
    i == 0 || i == |bytes| || (i < |bytes| && !Continuation(bytes[i]))
  }

  // ---------- the longest prefix that fits ----------

  /** The longest prefix of `s`, in whole characters, of at most `n` bytes. */
  function Fit(s: string, n: nat): string {
    if Size(s) <= n then s else Fit(s[..|s| - 1], n)
  }

  lemma {:induction false} FitFits(s: string, n: nat)
    ensures Size(Fit(s, n)) <= n && Fit(s, n) <= s
    ensures Encode(Fit(s, n)) <= Encode(s)
  {
    if Size(s) > n {
      FitFits(s[..|s| - 1], n);
    }
  }

  /** Fitting to less after fitting to more is fitting to less. */
  lemma {:induction false} FitFit(s: string, n: nat, m: nat)
    requires m <= n
    ensures Fit(Fit(s, n), m) == Fit(s, m)
  {
    if Size(s) > n {
      FitFit(s[..|s| - 1], n, m);
    }
  }

  lemma {:induction false} FitSnoc(s: string, c: char, n: nat)
    requires Size(s + [c]) > n
    ensures Fit(s + [c], n) == Fit(s, n)
  {
    assert (s + [c])[..|s|] == s;
  }

  /** Boundaries of a text within its last character and before it. */
  lemma {:induction false} BoundarySnoc(s: string, c: char, i: nat)
    requires i <= Size(s + [c])
    ensures i <= Size(s) ==> (IsCharBoundary(Encode(s + [c]), i) <==> IsCharBoundary(Encode(s), i))
    ensures Size(s) < i < Size(s + [c]) ==> !IsCharBoundary(Encode(s + [c]), i)
  {
    EncodeSnoc(s, c);
    var whole := Encode(s + [c]);
    if i < Size(s) {
      assert whole[i] == Encode(s)[i];
    } else if i < |whole| {
      assert whole[i] == Utf8(c)[i - Size(s)];
    }
  }

  /** The last character boundary at or below `n` is where the longest fitting prefix ends. */
  lemma {:induction false} LastBoundary(s: string, n: nat)
    requires n <= Size(s)
    ensures Size(Fit(s, n)) <= n && IsCharBoundary(Encode(s), Size(Fit(s, n)))
    ensures forall i | Size(Fit(s, n)) < i <= n :: !IsCharBoundary(Encode(s), i)
  {
    if n < Size(s) {
      var front, c := s[..|s| - 1], s[|s| - 1];
      assert s == front + [c];
      FitSnoc(front, c, n);
      if n <= Size(front) {
        LastBoundary(front, n);
        BoundarySnoc(front, c, Size(Fit(front, n)));
      } else {
        BoundarySnoc(front, c, Size(front));
      }
      forall i | Size(Fit(s, n)) < i <= n ensures !IsCharBoundary(Encode(s), i) {
        BoundarySnoc(front, c, i);
      }
    }
  }

  // ---------- the byte stage ----------

  function Assemble(tag: Option<string>, body: string): string {
    if tag.Some? then "[" + tag.value + "]\n" + body else body
  }

  /** The byte cap on a text: unchanged if it fits, otherwise the longest fitting prefix, with
      the marker whenever the cap has room for one. */
  function Cap(s: string, limit: nat): string {
    if Size(s) <= limit then s
    else if limit < 3 then Fit(s, limit)
    else Fit(s, limit - 3) + [MARKER]
  }

  /** What is kept is the longest prefix that fits: no other that fits is longer. */
  lemma {:induction false} FitIsLongest(s: string, n: nat, q: string)
    requires q <= s && Size(q) <= n
    ensures q <= Fit(s, n)
  {
    if Size(s) > n {
      assert q != s;
      assert q <= s[..|s| - 1];
      FitIsLongest(s[..|s| - 1], n, q);
    }
  }

  /** The byte stage: unchanged within the cap; otherwise a prefix that fits, and no longer one would,
      with the marker after it unless the cap has no room for one. */
  lemma {:induction false} CapMeans(s: string, limit: nat, q: string)
    ensures Size(s) <= limit ==> Cap(s, limit) == s
    ensures Size(s) > limit ==>
              var n := if limit < 3 then limit else limit - 3;
              exists p :: && Cap(s, limit) == (if limit < 3 then p else p + [MARKER])
                          && p <= s && Size(p) <= n && (q <= s && Size(q) <= n ==> q <= p)
  {
    var n := if limit < 3 then limit else limit - 3;
    FitFits(s, n);
    if q <= s && Size(q) <= n {
      FitIsLongest(s, n, q);
    }
  }

  lemma {:induction false} EncodeConcat(a: string, b: string)
    ensures Encode(a + b) == Encode(a) + Encode(b)
  {
    hide Utf8, Encode;
    if b == [] {
      assert a + b == a;
      EncodeNone();
    } else {
      var front, c := b[..|b| - 1], b[|b| - 1];
      EncodeConcat(a, front);
      EncodeSnoc(a + front, c);
      EncodeSnoc(front, c);
      assert a + b == (a + front) + [c] && b == front + [c];
    }
  }

  lemma {:induction false} EncodeNone()
    ensures Encode([]) == []
  {
  }

  lemma {:induction false} EncodeOne(c: char)
    ensures Encode([c]) == Utf8(c)
  {
    EncodeSnoc([], c);
    assert [] + [c] == [c];
  }

  lemma {:induction false} PunctuationBytes()
    ensures Encode("[") == [0x5B] && Encode("]\n") == [0x5D, 0x0A] && Encode([MARKER]) == [0xE2, 0x80, 0xA6]
  {
    hide Encode;
    EncodeOne('[');
    EncodeOne(']');
    EncodeOne('\n');
    EncodeOne(MARKER);
    EncodeConcat("]", "\n");
    assert "]\n" == "]" + "\n" && "]" == [']'] && "\n" == ['\n'] && "[" == ['['];
  }

  /** The bytes of an assembled message: the tag in square brackets and a newline in front of the body,
      or the body alone; and the bytes of the marker. */
  lemma {:induction false} AssembledBytes(tag: string, body: string)
    ensures Encode(Assemble(Some(tag), body)) == [0x5B] + Encode(tag) + [0x5D, 0x0A] + Encode(body)
    ensures Encode(Assemble(None, body)) == Encode(body)
    ensures Encode([MARKER]) == [0xE2, 0x80, 0xA6]
  {
    hide Encode, Utf8;
    PunctuationBytes();
    EncodeConcat("[", tag);
    EncodeConcat("[" + tag, "]\n");
    EncodeConcat("[" + tag + "]\n", body);
  }

  method Render(tag: Option<string>, body: string, maxPayload: Option<nat>) returns (out: seq<Byte>)
    ensures out == Encode(if maxPayload.None? then Assemble(tag, body) else Cap(Assemble(tag, body), maxPayload.value))
  {
    var text := Assemble(tag, body);
    var full := Encode(text);
    if maxPayload.None? {
      return full;
    }
    var limit := maxPayload.value;
    if |full| <= limit {
      return full;
    }
    if limit < 3 {
      var cut := CutBack(text, full, limit);
      return full[..cut];
    }
    var cut := CutBack(text, full, limit - 3);
    EncodeSnoc(Fit(text, limit - 3), MARKER);
    out := full[..cut] + Utf8(MARKER);
  }

  /** The loop that moves `cut` down to a character boundary. */
  method CutBack(ghost text: string, full: seq<Byte>, budget: nat) returns (cut: nat)
    requires full == Encode(text) && budget < |full|
    ensures cut <= budget && full[..cut] == Encode(Fit(text, budget))
  {
    LastBoundary(text, budget);
    FitFits(text, budget);
    cut := budget;
    while cut > 0 && !IsCharBoundary(full, cut)
      invariant Size(Fit(text, budget)) <= cut <= budget
    {
      cut := cut - 1;
    }
  }

  lemma {:induction false} MarkerSize(s: string)
    ensures Size(s + [MARKER]) == Size(s) + 3
  {
    hide Encode;
    EncodeSnoc(s, MARKER);
  }

  /** The rendered text never exceeds the cap, whatever the cap. */
  lemma {:induction false} CapFits(s: string, limit: nat)
    ensures Size(Cap(s, limit)) <= limit
  {
    hide Size, Fit;
    FitFits(s, limit);
    if limit >= 3 {
      FitFits(s, limit - 3);
      MarkerSize(Fit(s, limit - 3));
    }
  }

  /** A marker that does not fit leaves no trace. */
  lemma {:induction false} FitMarked(p: string, n: nat)
    requires Size(p) + 3 > n
    ensures Fit(p + [MARKER], n) == Fit(p, n)
  {
    MarkerSize(p);
    FitSnoc(p, MARKER, n);
  }

  /** Cutting a marked prefix, when the marker has to go and when it fits. */
  lemma {:induction false} CapShort(p: string, b: nat)
    requires 3 <= b < Size(p) + 3
    ensures Cap(p + [MARKER], b) == Fit(p, b - 3) + [MARKER]
  {
    hide Size, Fit;
    MarkerSize(p);
    FitMarked(p, b - 3);
  }

  lemma {:induction false} CapRoom(p: string, b: nat)
    requires Size(p) + 3 <= b
    ensures Cap(p + [MARKER], b) == p + [MARKER] == Fit(p, b - 3) + [MARKER]
  {
    hide Size;
    MarkerSize(p);
  }

  /** Two caps with room for a marker, the second the smaller. */
  lemma {:induction false} CapMarked(s: string, a: nat, b: nat)
    requires 3 <= b < a < Size(s)
    ensures Cap(Cap(s, a), b) == Cap(s, b)
  {
    hide Size, Fit;
    var p := Fit(s, a - 3);
    FitFit(s, a - 3, b - 3);
    if Size(p) + 3 > b {
      CapShort(p, b);
    } else {
      CapRoom(p, b);
    }
  }

  /** The second cap has no room for a marker, and the first keeps enough text to hide its own. */
  lemma {:induction false} CapHidden(s: string, a: nat, b: nat)
    requires b < 3 && b + 3 <= a < Size(s)
    ensures Cap(Cap(s, a), b) == Cap(s, b)
  {
    hide Size, Fit;
    var p := Fit(s, a - 3);
    MarkerSize(p);
    FitFit(s, a - 3, b);
    FitMarked(p, b);
  }

  /** Capping twice is capping once at the smaller cap, when the second cap leaves room for the
      marker, the first does not, or the first keeps enough text to hide its marker. */
  lemma {:induction false} CapCap(s: string, a: nat, b: nat)
    requires a < 3 || b >= 3 || b + 3 <= a
    ensures Cap(Cap(s, a), b) == Cap(s, Min(a, b))
  {
    hide Size;
    if Size(s) <= a {
    } else if a <= b {
      CapFits(s, a);
    } else if b >= 3 {
      CapMarked(s, a, b);
    } else if a >= 3 {
      CapHidden(s, a, b);
    } else {
      FitFit(s, a, b);
    }
  }

  function Repeat(c: char, n: nat): string {
    if n == 0 then [] else Repeat(c, n - 1) + [c]
  }

  lemma {:induction false} AsciiSize(n: nat)
    ensures Size(Repeat('a', n)) == n == |Repeat('a', n)|
  {
    if n > 0 {
      AsciiSize(n - 1);
      EncodeSnoc(Repeat('a', n - 1), 'a');
    }
  }

  lemma {:induction false} AsciiFit(n: nat, m: nat)
    ensures Fit(Repeat('a', n), m) == Repeat('a', Min(n, m))
  {
    hide Size;
    AsciiSize(n);
    if m < n {
      var front := Repeat('a', n - 1);
      assert Repeat('a', n) == front + ['a'];
      FitSnoc(front, 'a', m);
      AsciiFit(n - 1, m);
    } else {
      assert Fit(Repeat('a', n), m) == Repeat('a', n);
    }
  }

  /** With a second cap too small for a marker and a first that keeps less text than the second
      would, capping twice keeps only what the first left in front of its marker. */
  lemma {:induction false} CapLoses(s: string, a: nat, b: nat)
    requires b < 3 <= a < b + 3 && Size(s) > a
    ensures Cap(Cap(s, a), b) == Fit(s, a - 3) && Cap(s, Min(a, b)) == Fit(s, b)
  {
    hide Size;
    var p := Fit(s, a - 3);
    FitFits(s, a - 3);
    MarkerSize(p);
    FitMarked(p, b);
  }

  /** Then six letters are enough to break the law. */
  lemma {:induction false} CapCapFails(a: nat, b: nat) returns (s: string)
    requires b < 3 <= a < b + 3
    ensures Size(Cap(Cap(s, a), b)) == a - 3 < b == Size(Cap(s, Min(a, b)))
  {
    hide Size, Fit, Cap, Encode;
    s := Repeat('a', 6);
    AsciiSize(6);
    CapLoses(s, a, b);
    AsciiFit(6, a - 3);
    AsciiFit(6, b);
    AsciiSize(a - 3);
    AsciiSize(b);
  }

  /** The composition law holds for all texts exactly under that condition on the two caps. */
  lemma {:induction false} CapCapIff(a: nat, b: nat)
    ensures (forall s :: Cap(Cap(s, a), b) == Cap(s, Min(a, b))) <==> a < 3 || b >= 3 || b + 3 <= a
  {
    if a < 3 || b >= 3 || b + 3 <= a {
      forall s ensures Cap(Cap(s, a), b) == Cap(s, Min(a, b)) {
        CapCap(s, a, b);
      }
    } else {
      var s := CapCapFails(a, b);
    }
  }

  // ---------- the character stage ----------

  /** `truncate_body`. */
  function TruncateBody(body: string, maxChars: nat): (r: string)
    ensures |body| <= maxChars ==> r == body
    ensures |body| > maxChars ==> |r| == Max(maxChars, 1) && r[|r| - 1] == MARKER && r[..|r| - 1] <= body
  {
    if |body| <= maxChars then body
    else body[..if maxChars > 0 then maxChars - 1 else 0] + [MARKER]
  }

  /** The character stage composes to the smaller cap for all caps, zero included. */
  lemma {:induction false} TruncateTruncate(body: string, a: nat, b: nat)
    ensures TruncateBody(TruncateBody(body, a), b) == TruncateBody(body, Min(a, b))
  {
    var first := TruncateBody(body, a);
    if a < |body| && 0 < b < a {
      assert first[..b - 1] == body[..b - 1];
    }
  }

  /** A prefix that fits is kept whole, and one that does not is itself cut. */
  lemma {:induction false} FitPrefix(p: string, rest: string, n: nat)
    ensures Size(p) <= n ==> p <= Fit(p + rest, n)
    ensures Size(p) > n ==> Fit(p + rest, n) == Fit(p, n)
    decreases |rest|
  {
    hide Size;
    if rest == [] {
      assert p + rest == p;
    } else {
      var front := rest[..|rest| - 1];
      assert (p + rest)[..|p + rest| - 1] == p + front;
      FitPrefix(p, front, n);
      GrowsWith(p, rest);
    }
  }

  lemma {:induction false} GrowsWith(p: string, rest: string)
    ensures Size(p) <= Size(p + rest)
  {
    if rest == [] {
      assert p + rest == p;
    } else {
      GrowsWith(p, rest[..|rest| - 1]);
      assert (p + rest)[..|p + rest| - 1] == p + rest[..|rest| - 1];
    }
  }

  /** The tag and the part of the body that the character stage keeps in front of its marker. */
  function Kept(tag: Option<string>, body: string, maxChars: nat): string
    requires maxChars < |body|
  {
    Assemble(tag, body[..if maxChars > 0 then maxChars - 1 else 0])
  }

  /** What the byte stage keeps of an over-long text, without its own marker. */
  function CutText(s: string, limit: nat): string {
    Fit(s, if limit < 3 then limit else limit - 3)
  }

  /** The pipeline: the character stage cuts the body, notes are appended, the byte stage cuts the
      assembled text. The first marker survives the second cut exactly if the tag, the kept body and
      the marker fit into what the second keeps; otherwise only text in front of it is left. */
  lemma {:induction false} FirstMarkerIff(tag: Option<string>, body: string, notes: string, maxChars: nat, limit: nat)
    requires maxChars < |body| && Size(Assemble(tag, TruncateBody(body, maxChars) + notes)) > limit
    ensures var text := Assemble(tag, TruncateBody(body, maxChars) + notes);
            var kept := Kept(tag, body, maxChars);
            && Cap(text, limit) == (if limit < 3 then CutText(text, limit) else CutText(text, limit) + [MARKER])
            && (kept + [MARKER] <= CutText(text, limit) <==> Size(kept) + 3 <= limit - if limit < 3 then 0 else 3)
            && (!(kept + [MARKER] <= CutText(text, limit)) ==> CutText(text, limit) <= kept)
  {
    var kept, n := Kept(tag, body, maxChars), if limit < 3 then limit else limit - 3;
    var text := Assemble(tag, TruncateBody(body, maxChars) + notes);
    assert text == kept + [MARKER] + notes;
    hide Size, Fit;
    MarkerSize(kept);
    FitPrefix(kept + [MARKER], notes, n);
    if Size(kept) + 3 > n {
      FitMarked(kept, n);
      FitFits(kept, n);
    }
  }

  /** Without notes the first marker is always gone: the text would not have been cut otherwise. */
  lemma {:induction false} OneMarker(tag: Option<string>, body: string, maxChars: nat, limit: nat)
    requires maxChars < |body| && Size(Assemble(tag, TruncateBody(body, maxChars))) > limit
    ensures CutText(Assemble(tag, TruncateBody(body, maxChars)), limit) <= Kept(tag, body, maxChars)
  {
    hide Size, Fit;
    assert TruncateBody(body, maxChars) + [] == TruncateBody(body, maxChars);
    FirstMarkerIff(tag, body, [], maxChars, limit);
    assert Assemble(tag, TruncateBody(body, maxChars)) == Kept(tag, body, maxChars) + [MARKER];
    MarkerSize(Kept(tag, body, maxChars));
  }

  /** With notes both can be seen: a body cut to its bare marker, nine characters of notes, and a
      cap of eleven bytes. */
  lemma {:induction false} TwoMarkers()
    ensures var text := Assemble(None, TruncateBody("aa", 1) + Repeat('a', 9));
            Size(text) == 12 && [MARKER] <= CutText(text, 11) && Cap(text, 11) == CutText(text, 11) + [MARKER]
  {
    var notes := Repeat('a', 9);
    assert TruncateBody("aa", 1) == [MARKER];
    AsciiTail([MARKER], 9);
    assert Encode([]) == [] && [] + [MARKER] == [MARKER];
    MarkerSize([]);
    FirstMarkerIff(None, "aa", notes, 1, 11);
    assert Kept(None, "aa", 1) == [];
  }

  lemma {:induction false} AsciiSnoc(s: string)
    ensures Size(s + ['a']) == Size(s) + 1
  {
    EncodeSnoc(s, 'a');
  }

  lemma {:induction false} AsciiTail(s: string, n: nat)
    ensures Size(s + Repeat('a', n)) == Size(s) + n
  {
    hide Size;
    if n == 0 {
      assert s + Repeat('a', 0) == s;
    } else {
      AsciiTail(s, n - 1);
      assert s + Repeat('a', n) == (s + Repeat('a', n - 1)) + ['a'];
      AsciiSnoc(s + Repeat('a', n - 1));
    }
  }
}
