/** The text a signed request signs, in its three implementations: the Go server, the browser client
    and the k6 load generator; and why it can only be read one way. */
module Signing {
  import opened Text
  import opened Sorting
  import opened Encoding

  datatype Auth = Auth(
    version: string,
    event: string,
    userId: string,
    sessionId: string,
    timestamp: int,
    nonce: string,
    claims: map<string, string>)

  // ---- sort orders ----

  /** `sort.Strings` compares bytes. */
  predicate GoLess(a: string, b: string) {
    LessUnits(Utf8(a), Utf8(b))
  }

  /** `Array.prototype.sort` compares UTF-16 code units. */
  predicate TsLess(a: string, b: string) {
    LessUnits(Utf16(a), Utf16(b))
  }

  lemma GoLessIsOrder()
    ensures TotalOrder(GoLess)
  {
    forall a, b ensures GoLess(a, b) == Less(a, b) { Utf8Order(a, b); }
    forall a ensures !GoLess(a, a) { LessIrreflexive(a); }
    forall a, b ensures GoLess(a, b) || GoLess(b, a) || a == b { LessTotal(a, b); }
    forall a, b, c | GoLess(a, b) && GoLess(b, c) ensures GoLess(a, c) { LessTransitive(a, b, c); }
  }

  lemma {:induction false} UnitsTransitive(a: seq<int>, b: seq<int>, c: seq<int>)
    requires LessUnits(a, b) && LessUnits(b, c)
    ensures LessUnits(a, c)
  {
    if a != [] && a[0] == b[0] && b[0] == c[0] {
      UnitsTransitive(a[1..], b[1..], c[1..]);
    }
  }

  lemma {:induction false} InvertedSymmetric(a: string, b: string)
    ensures Inverted(a, b) == Inverted(b, a)
  {
    if a != "" && b != "" && a[0] == b[0] {
      InvertedSymmetric(a[1..], b[1..]);
    }
  }

  lemma TsLessIsOrder()
    ensures TotalOrder(TsLess)
  {
    forall a ensures !TsLess(a, a) { Utf16Order(a, a); LessIrreflexive(a); }
    forall a, b ensures TsLess(a, b) || TsLess(b, a) || a == b {
      Utf16Order(a, b);
      Utf16Order(b, a);
      InvertedSymmetric(a, b);
      LessTotal(a, b);
    }
    forall a, b, c | TsLess(a, b) && TsLess(b, c) ensures TsLess(a, c) {
      UnitsTransitive(Utf16(a), Utf16(b), Utf16(c));
    }
  }

  // ---- canonical claims ----

  function Part(key: string, value: string): string {
    key + "=" + Base64Url(Utf8(value))
  }

  function Parts(keys: seq<string>, claims: map<string, string>): seq<string>
    requires forall k | k in keys :: k in claims
  {
    seq(|keys|, i requires 0 <= i < |keys| => Part(keys[i], claims[keys[i]]))
  }

  function Join(parts: seq<string>, sep: string): string {
    if parts == [] then ""
    else if |parts| == 1 then parts[0]
    else parts[0] + sep + Join(parts[1..], sep)
  }

  /** Claims in key order, each `key=base64url(value)`, joined by `&`. */
  ghost function Canonical(claims: map<string, string>, lt: (string, string) -> bool): string
    requires TotalOrder(lt)
  {
    var keys := SortSet(claims.Keys, lt);
    assert forall k | k in keys :: k in Elements(keys);
    Join(Parts(keys, claims), "&")
  }

  ghost function GoClaims(claims: map<string, string>): string {
    GoLessIsOrder();
    Canonical(claims, GoLess)
  }

  ghost function TsClaims(claims: map<string, string>): string {
    TsLessIsOrder();
    Canonical(claims, TsLess)
  }

  /** `canonicalClaimsString` of the server. */
  method CanonicalClaimsString(claims: map<string, string>) returns (s: string)
    ensures s == GoClaims(claims)
  {
    GoLessIsOrder();
    if |claims| == 0 {
      EmptyElements(SortSet(claims.Keys, GoLess));
      return "";
    }
    s := SortedClaimsString(claims);
  }

  /** `canonicalClaimsString` of the load generator, which has no case for empty claims. */
  method SortedClaimsString(claims: map<string, string>) returns (s: string)
    ensures s == GoClaims(claims)
  {
    hide GoLess, Base64Url, Utf8, Join, GoClaims, Parts, TotalOrder, Ascending;
    GoLessIsOrder();
    var keys := SortedElements(claims.Keys, GoLess);
    KeysOfClaims(keys, claims);
    var parts := ClaimParts(keys, claims);
    PartsAre(keys, claims, parts);
    s := Join(parts, "&");
  }

  /** The loop over the sorted keys. */
  method ClaimParts(keys: seq<string>, claims: map<string, string>) returns (parts: seq<string>)
    requires forall i | 0 <= i < |keys| :: keys[i] in claims
    ensures |parts| == |keys| && forall j | 0 <= j < |keys| :: parts[j] == Part(keys[j], claims[keys[j]])
  {
    hide Base64Url, Utf8;
    parts := [];
    for i := 0 to |keys|
      invariant |parts| == i && forall j | 0 <= j < i :: parts[j] == Part(keys[j], claims[keys[j]])
    {
      var encoded := Base64Url(Utf8(claims[keys[i]]));
      parts := parts + [keys[i] + "=" + encoded];
    }
  }

  lemma {:induction false} PartsAre(keys: seq<string>, claims: map<string, string>, parts: seq<string>)
    requires TotalOrder(GoLess) && keys == SortSet(claims.Keys, GoLess)
    requires forall k | k in keys :: k in claims
    requires |parts| == |keys| && forall j | 0 <= j < |keys| ::
        keys[j] in keys && parts[j] == Part(keys[j], claims[keys[j]])
    ensures Join(parts, "&") == GoClaims(claims)
  {
    hide GoLess; hide Part; hide Join;
    assert parts == Parts(keys, claims);
  }

  lemma KeysOfClaims(keys: seq<string>, claims: map<string, string>)
    requires Elements(keys) == claims.Keys
    ensures (forall k | k in keys :: k in claims) && forall i | 0 <= i < |keys| :: keys[i] in claims
  {
    assert forall k | k in keys :: k in Elements(keys);
  }

  // ---- signing inputs ----

  function Bars(a: string, b: string, c: string, d: string, e: string, f: string, g: string): string {
    a + "|" + (b + "|" + (c + "|" + (d + "|" + (e + "|" + (f + "|" + g)))))
  }

  /** A blank version reads as "v1". */
  function EffectiveVersion(version: string): string {
    if Blank(version) then "v1" else TrimSpace(version)
  }

  /** `buildSignedRequestInput` of the server. */
  ghost function GoInput(auth: Auth): string {
    Bars(EffectiveVersion(auth.version), auth.event, auth.userId, auth.sessionId, Decimal(auth.timestamp), auth.nonce,
         GoClaims(auth.claims))
  }

  method BuildSignedRequestInput(auth: Auth) returns (s: string)
    ensures s == GoInput(auth)
  {
    var version := TrimSpace(auth.version);
    if version == "" {
      version := "v1";
    }
    var claims := CanonicalClaimsString(auth.claims);
    s := Bars(version, auth.event, auth.userId, auth.sessionId, Decimal(auth.timestamp), auth.nonce, claims);
  }

  /** `signingInput` of the client; its version is always "v1". */
  ghost function TsInput(auth: Auth): string {
    Bars("v1", auth.event, auth.userId, auth.sessionId, Decimal(auth.timestamp), auth.nonce, TsClaims(auth.claims))
  }

  /** `buildSigningInput` of the load generator. */
  method BuildSigningInput(auth: Auth) returns (s: string)
    ensures auth.version == "v1" ==> s == GoInput(auth)
    ensures s == GoInput(auth.(version := "v1"))
  {
    var claims := SortedClaimsString(auth.claims);
    TrimResult("v1", IsSpace);
    s := Bars("v1", auth.event, auth.userId, auth.sessionId, Decimal(auth.timestamp), auth.nonce, claims);
  }

  // ---- splitting ----

  lemma {:induction false} JoinInjective(ps: seq<string>, qs: seq<string>)
    requires forall p | p in ps :: p != "" && '&' !in p
    requires forall q | q in qs :: q != "" && '&' !in q
    requires Join(ps, "&") == Join(qs, "&")
    ensures ps == qs
  {
    JoinShape(ps);
    JoinShape(qs);
    if |ps| >= 2 {
      assert ps[0] in ps && qs[0] in qs;
      SplitAtFirst(ps[0], Join(ps[1..], "&"), qs[0], Join(qs[1..], "&"), '&');
      assert (forall p | p in ps[1..] :: p in ps) && (forall q | q in qs[1..] :: q in qs);
      JoinInjective(ps[1..], qs[1..]);
      assert ps == [ps[0]] + ps[1..] && qs == [qs[0]] + qs[1..];
    }
  }

  lemma {:induction false} JoinShape(ps: seq<string>)
    requires forall p | p in ps :: p != "" && '&' !in p
    ensures Join(ps, "&") == "" <==> ps == []
    ensures '&' in Join(ps, "&") <==> |ps| >= 2
  {
    if ps != [] {
      assert ps[0] in ps;
    }
    if |ps| >= 2 {
      assert Join(ps, "&")[|ps[0]|] == '&';
    }
  }

  // ---- unique decoding ----

  /** Keys without the separator of the claims text. An equals sign does no harm: encoded values
      contain none, so a part is read from its last one. */
  predicate PlainKeys(claims: map<string, string>) {
    forall k | k in claims :: '&' !in k
  }

  lemma {:induction false} EncodedPlain(value: string)
    ensures forall c | c in Base64Url(Utf8(value)) :: c != '=' && c != '&' && c != '|'
  {
    Base64UrlRoundTrip(Utf8(value));
  }

  lemma {:induction false} EncodedInjective(v: string, w: string)
    requires Base64Url(Utf8(v)) == Base64Url(Utf8(w))
    ensures v == w
  {
    Base64UrlRoundTrip(Utf8(v));
    Base64UrlRoundTrip(Utf8(w));
    Utf8RoundTrip(v);
    Utf8RoundTrip(w);
  }

  lemma PartInjective(k: string, v: string, l: string, w: string)
    requires Part(k, v) == Part(l, w)
    ensures k == l && v == w
  {
    EncodedPlain(v);
    EncodedPlain(w);
    SplitAtLast(k, Base64Url(Utf8(v)), l, Base64Url(Utf8(w)), '=');
    EncodedInjective(v, w);
  }

  lemma PartsPlain(keys: seq<string>, claims: map<string, string>)
    requires PlainKeys(claims) && forall k | k in keys :: k in claims
    ensures forall p | p in Parts(keys, claims) :: p != "" && '&' !in p
  {
    hide Base64Url; hide Utf8;
    forall i | 0 <= i < |keys| ensures Parts(keys, claims)[i] != "" && '&' !in Parts(keys, claims)[i] {
      assert keys[i] in keys;
      EncodedPlain(claims[keys[i]]);
    }
  }

  /** Equal claims texts list equal keys with equal values, whatever the order of the keys. */
  lemma ClaimsTextInjective(keys: seq<string>, claims: map<string, string>,
        keys': seq<string>, claims': map<string, string>)
    requires PlainKeys(claims) && PlainKeys(claims')
    requires (forall k | k in keys :: k in claims) && (forall k | k in keys' :: k in claims')
    requires Join(Parts(keys, claims), "&") == Join(Parts(keys', claims'), "&")
    ensures keys == keys' && forall k | k in keys :: claims[k] == claims'[k]
  {
    hide Part; hide Join;
    PartsPlain(keys, claims);
    PartsPlain(keys', claims');
    JoinInjective(Parts(keys, claims), Parts(keys', claims'));
    assert |keys| == |Parts(keys, claims)| == |keys'|;
    forall i | 0 <= i < |keys| ensures keys[i] == keys'[i] && claims[keys[i]] == claims'[keys'[i]] {
      assert keys[i] in keys && keys'[i] in keys';
      assert Parts(keys, claims)[i] == Parts(keys', claims')[i];
      PartInjective(keys[i], claims[keys[i]], keys'[i], claims'[keys'[i]]);
    }
  }

  /** The claims text determines the claims. */
  lemma GoClaimsInjective(claims: map<string, string>, claims': map<string, string>)
    requires PlainKeys(claims) && PlainKeys(claims') && GoClaims(claims) == GoClaims(claims')
    ensures claims == claims'
  {
    hide GoLess, Join, PlainKeys, Parts, Ascending, PartialOrder, TotalOrder;
    GoLessIsOrder();
    var keys, keys' := SortSet(claims.Keys, GoLess), SortSet(claims'.Keys, GoLess);
    assert (forall k | k in keys :: k in Elements(keys)) && (forall k | k in keys' :: k in Elements(keys'));
    ClaimsTextInjective(keys, claims, keys', claims');
    assert claims.Keys == Elements(keys) == claims'.Keys;
  }

  /** Fields that contain no separator, and claim keys that contain none of theirs. */
  predicate PlainFields(auth: Auth) {
    '|' !in auth.event && '|' !in auth.userId && '|' !in auth.sessionId && '|' !in auth.nonce && PlainKeys(auth.claims)
  }

  predicate BarFreeVersion(auth: Auth) {
    '|' !in EffectiveVersion(auth.version)
  }

  predicate BarFreeKeys(auth: Auth) {
    forall k | k in auth.claims :: '|' !in k
  }

  /** What the signature covers. */
  function Meaning(auth: Auth): Auth {
    auth.(version := EffectiveVersion(auth.version))
  }

  lemma DecimalInjective(m: int, n: int)
    requires Decimal(m) == Decimal(n)
    ensures m == n
  {
    DecimalRoundTrip(m);
    DecimalRoundTrip(n);
  }

  // ---- how many separators each piece holds ----

  /** Bars in each free field, and ampersands in each claim key in sorted order. */
  datatype Shape = Shape(version: nat, event: nat, userId: nat, sessionId: nat, nonce: nat, keys: seq<nat>)

  function Counts(ps: seq<string>, c: char): seq<nat> {
    seq(|ps|, i requires 0 <= i < |ps| => Count(ps[i], c))
  }

  ghost function KeyShape(claims: map<string, string>): seq<nat> {
    GoLessIsOrder();
    Counts(SortSet(claims.Keys, GoLess), '&')
  }

  ghost function ShapeOf(auth: Auth): Shape {
    Shape(Count(EffectiveVersion(auth.version), '|'), Count(auth.event, '|'), Count(auth.userId, '|'),
          Count(auth.sessionId, '|'), Count(auth.nonce, '|'), KeyShape(auth.claims))
  }

  lemma {:induction false} BarsByCount(a: string, b: string, c: string, d: string, e: string, f: string, g: string,
                    a': string, b': string, c': string, d': string, e': string, f': string, g': string)
    requires Count(a, '|') == Count(a', '|') && Count(b, '|') == Count(b', '|') && Count(c, '|') == Count(c', '|')
    requires Count(d, '|') == Count(d', '|') && Count(e, '|') == Count(e', '|') && Count(f, '|') == Count(f', '|')
    requires Bars(a, b, c, d, e, f, g) == Bars(a', b', c', d', e', f', g')
    ensures a == a' && b == b' && c == c' && d == d' && e == e' && f == f' && g == g'
  {
    hide Count;
    BarSplit(a, b + "|" + (c + "|" + (d + "|" + (e + "|" + (f + "|" + g)))),
             a', b' + "|" + (c' + "|" + (d' + "|" + (e' + "|" + (f' + "|" + g')))));
    BarSplit(b, c + "|" + (d + "|" + (e + "|" + (f + "|" + g))), b',
        c' + "|" + (d' + "|" + (e' + "|" + (f' + "|" + g'))));
    BarSplit(c, d + "|" + (e + "|" + (f + "|" + g)), c', d' + "|" + (e' + "|" + (f' + "|" + g')));
    BarSplit(d, e + "|" + (f + "|" + g), d', e' + "|" + (f' + "|" + g'));
    BarSplit(e, f + "|" + g, e', f' + "|" + g');
    BarSplit(f, g, f', g');
  }

  lemma {:induction false} BarSplit(x: string, y: string, x': string, y': string)
    requires Count(x, '|') == Count(x', '|') && x + "|" + y == x' + "|" + y'
    ensures x == x' && y == y'
  {
    SplitAtCount(x, y, x', y', '|');
  }

  lemma {:induction false} CountBar(x: string, y: string)
    ensures Count(x + "|" + y, '|') == Count(x, '|') + 1 + Count(y, '|')
  {
    CountConcat(x + "|", y, '|');
    CountConcat(x, "|", '|');
    assert Count("|", '|') == Count("|"[..0], '|') + 1;
  }

  lemma {:induction false} CountBars(a: string, b: string, c: string, d: string, e: string, f: string, g: string)
    ensures Count(Bars(a, b, c, d, e, f, g), '|')
         == Count(a, '|') + Count(b, '|') + Count(c, '|') + Count(d, '|') + Count(e, '|') + Count(f, '|') +
             Count(g, '|') + 6
  {
    hide Count;
    CountBar(f, g);
    CountBar(e, f + "|" + g);
    CountBar(d, e + "|" + (f + "|" + g));
    CountBar(c, d + "|" + (e + "|" + (f + "|" + g)));
    CountBar(b, c + "|" + (d + "|" + (e + "|" + (f + "|" + g))));
    CountBar(a, b + "|" + (c + "|" + (d + "|" + (e + "|" + (f + "|" + g)))));
  }

  lemma DecimalCount(n: int)
    ensures Count(Decimal(n), '|') == 0
  {
    DecimalRoundTrip(n);
    CountNone(Decimal(n), '|');
  }

  lemma {:induction false} JoinByCount(ps: seq<string>, qs: seq<string>)
    requires Counts(ps, '&') == Counts(qs, '&') && Join(ps, "&") == Join(qs, "&")
    ensures ps == qs
  {
    hide Count;
    assert |ps| == |Counts(ps, '&')| == |qs|;
    if |ps| >= 2 {
      assert Count(ps[0], '&') == Counts(ps, '&')[0] == Counts(qs, '&')[0] == Count(qs[0], '&');
      SplitAtCount(ps[0], Join(ps[1..], "&"), qs[0], Join(qs[1..], "&"), '&');
      assert Counts(ps[1..], '&') == Counts(ps, '&')[1..] == Counts(qs, '&')[1..] == Counts(qs[1..], '&');
      JoinByCount(ps[1..], qs[1..]);
      assert ps == [ps[0]] + ps[1..] && qs == [qs[0]] + qs[1..];
    }
  }

  lemma {:induction false} PartCount(key: string, value: string)
    ensures Count(Part(key, value), '&') == Count(key, '&')
  {
    hide Base64Url, Utf8;
    EncodedPlain(value);
    var encoded := "=" + Base64Url(Utf8(value));
    CountConcat(key, encoded, '&');
    CountNone(encoded, '&');
    assert Part(key, value) == key + encoded;
  }

  lemma PartsByCount(keys: seq<string>, claims: map<string, string>, keys': seq<string>, claims': map<string, string>)
    requires (forall k | k in keys :: k in claims) && (forall k | k in keys' :: k in claims')
    requires Counts(keys, '&') == Counts(keys', '&')
    requires Join(Parts(keys, claims), "&") == Join(Parts(keys', claims'), "&")
    ensures keys == keys' && forall k | k in keys :: claims[k] == claims'[k]
  {
    hide Join, Count, Counts, Part;
    var ps, qs := Parts(keys, claims), Parts(keys', claims');
    PartsCount(keys, claims);
    PartsCount(keys', claims');
    JoinByCount(ps, qs);
    assert |keys| == |ps| == |keys'|;
    forall i | 0 <= i < |keys| ensures keys[i] == keys'[i] && claims[keys[i]] == claims'[keys'[i]] {
      assert keys[i] in keys && keys'[i] in keys' && ps[i] == qs[i];
      PartInjective(keys[i], claims[keys[i]], keys'[i], claims'[keys'[i]]);
    }
  }

  /** Claims texts are equal for equal claims only, if the keys hold as many ampersands in turn. */
  lemma ClaimsByCount(claims: map<string, string>, claims': map<string, string>)
    requires GoClaims(claims) == GoClaims(claims') && KeyShape(claims) == KeyShape(claims')
    ensures claims == claims'
  {
    hide GoLess, Join, Parts, Counts, Ascending, PartialOrder, TotalOrder;
    GoLessIsOrder();
    var keys, keys' := SortSet(claims.Keys, GoLess), SortSet(claims'.Keys, GoLess);
    assert (forall k | k in keys :: k in Elements(keys)) && (forall k | k in keys' :: k in Elements(keys'));
    PartsByCount(keys, claims, keys', claims');
    assert claims.Keys == Elements(keys) == claims'.Keys;
  }

  lemma PartsCount(keys: seq<string>, claims: map<string, string>)
    requires forall k | k in keys :: k in claims
    ensures Counts(Parts(keys, claims), '&') == Counts(keys, '&')
  {
    hide Part, Count;
    forall i | 0 <= i < |keys| ensures Count(Parts(keys, claims)[i], '&') == Count(keys[i], '&') {
      assert keys[i] in keys;
      PartCount(keys[i], claims[keys[i]]);
    }
  }

  /** UNIQUE DECODING, for all envelopes: two that sign the same text mean the same if and only if the
      separators fall into the same pieces. */
  lemma UniqueDecodingExactly(a: Auth, b: Auth)
    requires GoInput(a) == GoInput(b)
    ensures Meaning(a) == Meaning(b) <==> ShapeOf(a) == ShapeOf(b)
  {
    hide GoClaims, Bars, EffectiveVersion, KeyShape, Count;
    if ShapeOf(a) == ShapeOf(b) {
      DecimalCount(a.timestamp);
      DecimalCount(b.timestamp);
      BarsByCount(
        EffectiveVersion(a.version), a.event, a.userId, a.sessionId, Decimal(a.timestamp), a.nonce, GoClaims(a.claims),
        EffectiveVersion(b.version), b.event, b.userId, b.sessionId, Decimal(b.timestamp), b.nonce, GoClaims(b.claims));
      DecimalInjective(a.timestamp, b.timestamp);
      ClaimsByCount(a.claims, b.claims);
    }
  }

  /** When no field but the version contains a bar and no claim key an ampersand, what remains to be
      compared is the number of bars in the versions. */
  lemma UniqueDecoding(a: Auth, b: Auth)
    requires PlainFields(a) && PlainFields(b) && GoInput(a) == GoInput(b)
    ensures Meaning(a) == Meaning(b)
       <==> Count(EffectiveVersion(a.version), '|') == Count(EffectiveVersion(b.version), '|')
  {
    hide GoClaims, Bars, PlainKeys, EffectiveVersion, Count;
    if Count(EffectiveVersion(a.version), '|') == Count(EffectiveVersion(b.version), '|') {
      FieldCounts(a);
      FieldCounts(b);
      BarsByCount(
        EffectiveVersion(a.version), a.event, a.userId, a.sessionId, Decimal(a.timestamp), a.nonce, GoClaims(a.claims),
        EffectiveVersion(b.version), b.event, b.userId, b.sessionId, Decimal(b.timestamp), b.nonce, GoClaims(b.claims));
      DecimalInjective(a.timestamp, b.timestamp);
      GoClaimsInjective(a.claims, b.claims);
    }
  }

  lemma FieldCounts(auth: Auth)
    requires PlainFields(auth)
    ensures Count(auth.event, '|') == Count(auth.userId, '|') == Count(auth.sessionId, '|') ==
        Count(auth.nonce, '|') == 0
    ensures Count(Decimal(auth.timestamp), '|') == 0
  {
    hide Count;
    CountNone(auth.event, '|');
    CountNone(auth.userId, '|');
    CountNone(auth.sessionId, '|');
    CountNone(auth.nonce, '|');
    DecimalCount(auth.timestamp);
  }

  /** So it is unique when no version contains a bar, as the clients' "v1". */
  lemma UniqueDecodingBarFreeVersion(a: Auth, b: Auth)
    requires PlainFields(a) && PlainFields(b) && BarFreeVersion(a) && BarFreeVersion(b)
    requires GoInput(a) == GoInput(b)
    ensures Meaning(a) == Meaning(b)
  {
    hide GoInput, PlainFields, EffectiveVersion;
    CountNone(EffectiveVersion(a.version), '|');
    CountNone(EffectiveVersion(b.version), '|');
    UniqueDecoding(a, b);
  }

  lemma {:induction false} JoinAvoids(ps: seq<string>, c: char)
    requires c != '&' && forall p | p in ps :: c !in p
    ensures c !in Join(ps, "&")
  {
    if |ps| >= 2 {
      JoinAvoids(ps[1..], c);
    }
    if ps != [] {
      assert ps[0] in ps;
    }
  }

  lemma ClaimsAvoidBars(claims: map<string, string>)
    requires forall k | k in claims :: '|' !in k
    ensures '|' !in GoClaims(claims)
  {
    hide GoLess; hide Join; hide Base64Url; hide Utf8;
    GoLessIsOrder();
    var keys := SortSet(claims.Keys, GoLess);
    KeysOfClaims(keys, claims);
    var parts := Parts(keys, claims);
    forall i | 0 <= i < |parts| ensures '|' !in parts[i] {
      EncodedPlain(claims[keys[i]]);
    }
    JoinAvoids(parts, '|');
  }

  /** And for any version, when no claim key contains a bar: the bars of the whole text then count
      those of the version. */
  lemma UniqueDecodingAnyVersion(a: Auth, b: Auth)
    requires PlainFields(a) && PlainFields(b) && BarFreeKeys(a) && BarFreeKeys(b)
    requires GoInput(a) == GoInput(b)
    ensures Meaning(a) == Meaning(b)
  {
    hide GoClaims, Bars, PlainKeys, EffectiveVersion, Count;
    VersionBars(a);
    VersionBars(b);
    UniqueDecoding(a, b);
  }

  lemma VersionBars(auth: Auth)
    requires PlainFields(auth) && BarFreeKeys(auth)
    ensures Count(GoInput(auth), '|') == Count(EffectiveVersion(auth.version), '|') + 6
  {
    hide GoClaims, Bars, PlainKeys, EffectiveVersion, Count;
    FieldCounts(auth);
    ClaimsAvoidBars(auth.claims);
    CountNone(GoClaims(auth.claims), '|');
    CountBars(EffectiveVersion(auth.version), auth.event, auth.userId, auth.sessionId, Decimal(auth.timestamp),
        auth.nonce, GoClaims(auth.claims));
  }

  /** A bar can be read one field further left. */
  lemma BarsShift(a: string, b: string, c: string, d: string, e: string, f: string, g: string, h: string)
    ensures Bars(a, b, c, d, e, f, g + "|" + h) == Bars(a + "|" + b, c, d, e, f, g, h)
  {
    var rest := c + "|" + (d + "|" + (e + "|" + (f + "|" + (g + "|" + h))));
    assert a + "|" + (b + "|" + rest) == (a + "|" + b) + "|" + rest;
  }

  /** With bars allowed on both sides it fails: a bar of a claim key can be read as the end of the
      nonce, when the version takes up one field. */
  lemma BarsOnBothSidesCollide(value: string)
    ensures var a := Auth("v1", "e", "u", "s", 1, "7", map["1|k" := value]);
      var b := Auth("v1|e", "u", "s", "1", 7, "1", map["k" := value]);
      PlainFields(a) && PlainFields(b) && GoInput(a) == GoInput(b) && Meaning(a) != Meaning(b)
  {
    hide Base64Url; hide Utf8; hide Blank; hide Bars; hide Trim; hide GoClaims;
    var a := Auth("v1", "e", "u", "s", 1, "7", map["1|k" := value]);
    var b := Auth("v1|e", "u", "s", "1", 7, "1", map["k" := value]);
    SingleClaim("1|k", value);
    SingleClaim("k", value);
    VersionKept("v1");
    VersionKept("v1|e");
    assert Decimal(1) == "1" && Decimal(7) == "7";
    assert Part("1|k", value) == "1" + "|" + Part("k", value);
    BarsShift("v1", "e", "u", "s", "1", "7", "1", Part("k", value));
    assert "v1" + "|" + "e" == "v1|e";
  }

  /** An ampersand in a claim key can be read as the end of a claim. */
  lemma {:induction false} AmpersandKeysCollide(v: string, w: string)
    ensures var a, b := map["k=" + Base64Url(Utf8(v)) + "&l" := w], map["k" := v, "l" := w];
      GoClaims(a) == GoClaims(b) && a != b
  {
    hide Base64Url, Utf8, GoClaims;
    var key := "k=" + Base64Url(Utf8(v)) + "&l";
    SingleClaim(key, w);
    Utf8Order("k", "l");
    TwoClaims("k", v, "l", w);
    var a, b := map[key := w], map["k" := v, "l" := w];
    assert Part(key, w) == Part("k", v) + "&" + Part("l", w);
    assert "k" in b && |key| > 1 && "k" !in a;
  }

  lemma TwoClaims(k: string, v: string, l: string, w: string)
    requires GoLess(k, l)
    ensures GoClaims(map[k := v, l := w]) == Part(k, v) + "&" + Part(l, w)
  {
    hide GoLess, Part;
    GoLessIsOrder();
    var claims, keys := map[k := v, l := w], [k, l];
    assert k != l by { assert !GoLess(k, k); }
    assert Ascending(keys, GoLess);
    assert Elements(keys) == claims.Keys;
    SortSetUnique(keys, GoLess);
    hide Ascending, PartialOrder, TotalOrder, SortSet;
    JoinTwo(Part(k, v), Part(l, w));
    assert Parts(keys, claims) == [Part(k, v), Part(l, w)];
  }

  lemma JoinTwo(x: string, y: string)
    ensures Join([x, y], "&") == x + "&" + y
  {
    var parts := [x, y];
    assert parts[1..] == [y];
  }

  lemma SingleClaim(key: string, value: string)
    ensures GoClaims(map[key := value]) == Part(key, value)
  {
    hide GoLess; hide Base64Url; hide Utf8;
    GoLessIsOrder();
    var claims := map[key := value];
    assert Elements([key]) == claims.Keys;
    SortSetUnique([key], GoLess);
  }

  lemma VersionKept(version: string)
    requires version != "" && Trimmed(version, IsSpace)
    ensures EffectiveVersion(version) == version
  {
    TrimResult(version, IsSpace);
  }

  // ---- the three encoders ----

  /** The claim keys whose order the two languages disagree on. */
  ghost predicate NoInvertedKeys(claims: map<string, string>) {
    forall k, l | k in claims && l in claims :: !Inverted(k, l)
  }

  lemma {:induction false} OrdersRelate(k: string, l: string)
    ensures TsLess(k, l) == (if Inverted(k, l) then GoLess(l, k) else GoLess(k, l))
    ensures Inverted(k, l) ==> GoLess(k, l) != GoLess(l, k)
  {
    Utf8Order(k, l);
    Utf8Order(l, k);
    Utf16Order(k, l);
  }

  lemma SameOrderIfNoneInverted(keys: seq<string>)
    requires Ascending(keys, TsLess) && forall k, l | k in keys && l in keys :: !Inverted(k, l)
    ensures Ascending(keys, GoLess)
  {
    hide GoLess; hide TsLess; hide Inverted;
    forall i, j | 0 <= i < j < |keys| ensures GoLess(keys[i], keys[j]) {
      OrdersRelate(keys[i], keys[j]);
    }
  }

  lemma {:induction false} NoneInvertedIfSameOrder(keys: seq<string>, k: string, l: string)
    requires Ascending(keys, TsLess) && Ascending(keys, GoLess) && k in keys && l in keys
    ensures !Inverted(k, l)
  {
    hide GoLess; hide TsLess; hide Inverted;
    GoLessIsOrder();
    TsLessIsOrder();
    var i :| 0 <= i < |keys| && keys[i] == k;
    var j :| 0 <= j < |keys| && keys[j] == l;
    OrdersRelate(k, l);
    if i < j {
      assert GoLess(k, l) && TsLess(k, l);
    } else if j < i {
      assert GoLess(l, k) && TsLess(l, k);
      OrdersRelate(l, k);
    }
  }

  lemma {:induction false} InvertedDiffer(k: string, l: string)
    requires Inverted(k, l)
    ensures exists d :: 0 <= d < |k| && d < |l| && k[d] != l[d]
  {
    if k[0] == l[0] {
      InvertedDiffer(k[1..], l[1..]);
      var d :| 0 <= d < |k[1..]| && d < |l[1..]| && k[1..][d] != l[1..][d];
      assert k[d + 1] != l[d + 1];
    }
  }

  lemma {:induction false} TextStarts(keys: seq<string>, claims: map<string, string>)
    requires keys != [] && forall k | k in keys :: k in claims
    ensures var text := Join(Parts(keys, claims), "&");
      && keys[0] <= text
      && (|keys| >= 2 ==> text == Part(keys[0], claims[keys[0]]) + "&" + Join(Parts(keys[1..], claims), "&"))
  {
    hide Base64Url, Utf8;
    assert keys[0] in keys;
    assert |keys| >= 2 ==> Parts(keys, claims)[1..] == Parts(keys[1..], claims);
  }

  lemma {:induction false} TailElements(keys: seq<string>, less: (string, string) -> bool)
    requires TotalOrder(less) && Ascending(keys, less) && keys != []
    ensures Ascending(keys[1..], less) && Elements(keys[1..]) == Elements(keys) - {keys[0]} &&
        |keys| == |Elements(keys)|
  {
    AscendingDistinct(keys, less);
    assert keys == [keys[0]] + keys[1..];
  }

  /** Keys that sort differently never give the same text: it tells the first two keys apart. */
  lemma {:induction false} SameTextSameOrder(gs: seq<string>, ts: seq<string>, claims: map<string, string>)
    requires Ascending(gs, GoLess) && Ascending(ts, TsLess) && Elements(gs) == Elements(ts)
    requires (forall k | k in gs :: k in claims) && (forall k | k in ts :: k in claims)
    requires Join(Parts(gs, claims), "&") == Join(Parts(ts, claims), "&")
    ensures gs == ts
  {
    GoLessIsOrder();
    TsLessIsOrder();
    hide GoLess, TsLess, Part, Join, Parts, Inverted, TotalOrder, PartialOrder;
    FirstElement(gs);
    FirstElement(ts);
    if gs != [] && ts != [] {
      TextStarts(gs, claims);
      TextStarts(ts, claims);
      if gs[0] == ts[0] {
        TailElements(gs, GoLess);
        TailElements(ts, TsLess);
        if |gs| >= 2 {
          SameRest(Part(gs[0], claims[gs[0]]) + "&", Join(Parts(gs[1..], claims), "&"),
              Join(Parts(ts[1..], claims), "&"));
          SameTextSameOrder(gs[1..], ts[1..], claims);
        }
        assert gs == [gs[0]] + gs[1..] && ts == [ts[0]] + ts[1..];
      } else {
        PrefixesAgree(ts[0], gs[0], Join(Parts(gs, claims), "&"));
        FirstInverted(gs, ts);
        InvertedDiffer(ts[0], gs[0]);
      }
    }
  }

  lemma FirstElement(s: seq<string>)
    ensures s != [] ==> s[0] in Elements(s)
  {
  }

  lemma SameRest(a: string, x: string, y: string)
    requires a + x == a + y
    ensures x == y
  {
    assert (a + x)[|a|..] == x && (a + y)[|a|..] == y;
  }

  lemma PrefixesAgree(k: string, l: string, text: string)
    requires k <= text && l <= text
    ensures forall d | 0 <= d < |k| && d < |l| :: k[d] == l[d]
  {
    assert forall d | 0 <= d < |k| :: k[d] == text[d];
    assert forall d | 0 <= d < |l| :: l[d] == text[d];
  }

  lemma {:induction false} FirstInverted(gs: seq<string>, ts: seq<string>)
    requires Ascending(gs, GoLess) && Ascending(ts, TsLess) && Elements(gs) == Elements(ts)
    requires gs != [] && ts != [] && gs[0] != ts[0]
    ensures Inverted(ts[0], gs[0])
  {
    GoLessIsOrder();
    hide GoLess, TsLess, Inverted;
    assert gs[0] in Elements(ts) && ts[0] in Elements(gs);
    var i :| 0 <= i < |ts| && ts[i] == gs[0];
    var j :| 0 <= j < |gs| && gs[j] == ts[0];
    assert TsLess(ts[0], ts[i]) && GoLess(gs[0], gs[j]);
    OrdersRelate(ts[0], gs[0]);
    assert GoLess(gs[0], ts[0]) ==> !GoLess(ts[0], gs[0]);
  }

  /** ENCODERS AGREE. The browser and the server produce the same claims text if and only if no two
      claim keys first differ in a character beyond the basic plane against one above the surrogates. */
  lemma {:induction false} EncodersAgree(claims: map<string, string>)
    ensures GoClaims(claims) == TsClaims(claims) <==> NoInvertedKeys(claims)
  {
    hide Join; hide Inverted; hide GoLess; hide TsLess; hide Part;
    GoLessIsOrder();
    TsLessIsOrder();
    var gs, ts := SortSet(claims.Keys, GoLess), SortSet(claims.Keys, TsLess);
    KeysOfClaims(gs, claims);
    KeysOfClaims(ts, claims);
    if NoInvertedKeys(claims) {
      SameOrderIfNoneInverted(ts);
      AscendingUnique(gs, ts, GoLess);
    }
    if GoClaims(claims) == TsClaims(claims) {
      SameTextSameOrder(gs, ts, claims);
      forall k, l | k in claims && l in claims ensures !Inverted(k, l) {
        assert k in Elements(gs) && l in Elements(gs);
        NoneInvertedIfSameOrder(gs, k, l);
      }
    }
  }

  /** Keys of the basic plane, ASCII in particular, are never inverted. */
  lemma {:induction false} BasicPlaneAgrees(k: string, l: string)
    requires forall c | c in k + l :: (c as int) < 0x10000
    ensures !Inverted(k, l)
  {
    if k != "" && l != "" {
      assert k[0] in k + l && l[0] in k + l;
      assert forall c | c in k[1..] + l[1..] :: c in k + l;
      BasicPlaneAgrees(k[1..], l[1..]);
    }
  }

  /** Under the same condition browser, server and load generator sign the same text. */
  lemma SameInput(auth: Auth)
    requires auth.version == "v1"
    ensures TsInput(auth) == GoInput(auth) <==> NoInvertedKeys(auth.claims)
  {
    hide GoClaims, TsClaims, NoInvertedKeys;
    EncodersAgree(auth.claims);
    VersionKept("v1");
    if TsInput(auth) == GoInput(auth) {
      SamePrefix("v1", auth.event, auth.userId, auth.sessionId, Decimal(auth.timestamp), auth.nonce,
                 TsClaims(auth.claims), GoClaims(auth.claims));
    }
  }

  lemma SamePrefix(a: string, b: string, c: string, d: string, e: string, f: string, g: string, g': string)
    requires Bars(a, b, c, d, e, f, g) == Bars(a, b, c, d, e, f, g')
    ensures g == g'
  {
    BarsByCount(a, b, c, d, e, f, g, a, b, c, d, e, f, g');
  }

  /** And for keys beyond it they can differ. */
  lemma AstralKeysDiffer(v: string, w: string)
    ensures var claims := map["\U{E000}" := v, "\U{10000}" := w];
      GoClaims(claims) != TsClaims(claims)
  {
    hide GoClaims; hide TsClaims;
    var claims := map["\U{E000}" := v, "\U{10000}" := w];
    assert Inverted("\U{E000}", "\U{10000}");
    EncodersAgree(claims);
  }

  // ---- what is signed ----

  /** The claims text: the keys in code-point order, each with its value in base64url of UTF-8. */
  lemma {:induction false} ClaimsText(claims: map<string, string>) returns (keys: seq<string>, parts: seq<string>)
    ensures Elements(keys) == claims.Keys && Ascending(keys, Less) && |parts| == |keys|
    ensures forall i | 0 <= i < |keys| ::
        keys[i] in claims && parts[i] == keys[i] + "=" + Base64Url(Utf8(claims[keys[i]]))
    ensures GoClaims(claims) == Join(parts, "&")
  {
    hide Base64Url, Utf8, Join;
    GoLessIsOrder();
    keys := SortSet(claims.Keys, GoLess);
    KeysOfClaims(keys, claims);
    parts := Parts(keys, claims);
    forall i, j | 0 <= i < j < |keys| ensures Less(keys[i], keys[j]) {
      assert GoLess(keys[i], keys[j]);
      Utf8Order(keys[i], keys[j]);
    }
  }

  /** Joining puts the separator between the parts. */
  lemma {:induction false} JoinConcat(a: seq<string>, b: seq<string>, sep: string)
    ensures Join([], sep) == "" && (|a| == 1 ==> Join(a, sep) == a[0])
    ensures a != [] && b != [] ==> Join(a + b, sep) == Join(a, sep) + sep + Join(b, sep)
  {
    if a != [] && b != [] {
      if |a| == 1 {
        assert (a + b)[1..] == b;
      } else {
        assert (a + b)[1..] == a[1..] + b;
        JoinConcat(a[1..], b, sep);
        var x, y, z := a[0] + sep, Join(a[1..], sep), sep + Join(b, sep);
        assert x + (y + z) == (x + y) + z;
        assert Join(a + b, sep) == x + (y + z);
        assert Join(a, sep) + sep + Join(b, sep) == (x + y) + z;
      }
    }
  }

  /** The signed text: version, event, user, session, time, nonce and claims, with bars between them. */
  lemma {:induction false} SignedText(auth: Auth)
    ensures var version := if TrimSpace(auth.version) == "" then "v1" else TrimSpace(auth.version);
      GoInput(auth) == version + "|" + auth.event + "|" + auth.userId + "|" + auth.sessionId + "|"
                       + Decimal(auth.timestamp) + "|" + auth.nonce + "|" + GoClaims(auth.claims)
    ensures TsInput(auth) == "v1" + "|" + auth.event + "|" + auth.userId + "|" + auth.sessionId + "|"
                             + Decimal(auth.timestamp) + "|" + auth.nonce + "|" + TsClaims(auth.claims)
  {
    hide TrimSpace, GoClaims, TsClaims, Decimal;
    BarsBetween(EffectiveVersion(auth.version), auth.event, auth.userId, auth.sessionId, Decimal(auth.timestamp),
                auth.nonce, GoClaims(auth.claims));
    BarsBetween("v1", auth.event, auth.userId, auth.sessionId, Decimal(auth.timestamp), auth.nonce,
                TsClaims(auth.claims));
    hide Bars;
  }

  lemma {:induction false} Regroup(a: string, b: string, c: string)
    ensures a + (b + c) == (a + b) + c
  {
  }

  lemma {:induction false} BarsBetween(a: string, b: string, c: string, d: string, e: string, f: string, g: string)
    ensures Bars(a, b, c, d, e, f, g)
         == a + "|" + b + "|" + c + "|" + d + "|" + e + "|" + f + "|" + g
  {
    var bar := "|";
    var s2 := a + bar + b;
    var s3 := s2 + bar + c;
    var s4 := s3 + bar + d;
    var s5 := s4 + bar + e;
    Regroup(s5 + bar, f, bar + g);
    Regroup(s5 + bar + f, bar, g);
    Regroup(s4 + bar, e, bar + (f + bar + g));
    Regroup(s3 + bar, d, bar + (e + bar + (f + bar + g)));
    Regroup(s2 + bar, c, bar + (d + bar + (e + bar + (f + bar + g))));
    Regroup(a + bar, b, bar + (c + bar + (d + bar + (e + bar + (f + bar + g)))));
  }
}
