/** Decimal rendering and the two artifact identifiers of app/transparency_log.py. */
module Identifiers {
  import opened Hashing

  const DECIMAL_DIGITS: string := "0123456789"
  const ROOT_TRANSITION_PREFIX: string := "root-transition:"
  const SIGNING_KEY_MANIFEST_PREFIX: string := "signing-key-manifest:"

  function Decimal(n: nat): (s: string)
    ensures |s| >= 1 && ':' !in s
  {
    if n < 10 then [DECIMAL_DIGITS[n]] else Decimal(n / 10) + [DECIMAL_DIGITS[n % 10]]
  }

  function RootTransitionIdentifier(previousEpoch: nat, nextEpoch: nat, generation: nat): string {
    ROOT_TRANSITION_PREFIX + (Decimal(previousEpoch) + [':'] + (Decimal(nextEpoch) + [':'] + Decimal(generation)))
  }

  function SigningKeyManifestIdentifier(rootFingerprint: Digest, generation: nat): string {
    SIGNING_KEY_MANIFEST_PREFIX + (rootFingerprint + [':'] + Decimal(generation))
  }

  lemma {:induction false} DigitsDiffer(a: nat, b: nat)
    requires a < 10 && b < 10 && DECIMAL_DIGITS[a] == DECIMAL_DIGITS[b]
    ensures a == b
  {
  }

  lemma {:induction false} DecimalInjective(m: nat, n: nat)
    requires Decimal(m) == Decimal(n)
    ensures m == n
  {
    var s := Decimal(m);
    assert s[|s| - 1] == DECIMAL_DIGITS[m % 10] == DECIMAL_DIGITS[n % 10];
    DigitsDiffer(m % 10, n % 10);
    assert m < 10 <==> |s| == 1;
    assert n < 10 <==> |s| == 1;
    if m >= 10 {
      assert Decimal(m / 10) == s[..|s| - 1] == Decimal(n / 10);
      DecimalInjective(m / 10, n / 10);
    }
  }

  lemma {:induction false} SplitAtColon(a: string, x: string, b: string, y: string)
    requires ':' !in a && ':' !in b
    requires a + [':'] + x == b + [':'] + y
    ensures a == b && x == y
  {
    var s := a + [':'] + x;
    assert s[|a|] == ':' && s[|b|] == ':';
    assert forall i | 0 <= i < |a| :: s[i] == a[i];
    assert forall i | 0 <= i < |b| :: s[i] == b[i];
    assert a == s[..|a|] == s[..|b|] == b;
    assert x == s[|a| + 1..] == y;
  }

  lemma StripPrefix(p: string, x: string, y: string)
    requires p + x == p + y
    ensures x == y
  {
    assert x == (p + x)[|p|..] && y == (p + y)[|p|..];
  }

  /** One identifier names one (previous epoch, next epoch, generation). */
  lemma {:induction false} RootTransitionIdentifierInjective(p: nat, n: nat, g: nat, p': nat, n': nat, g': nat)
    requires RootTransitionIdentifier(p, n, g) == RootTransitionIdentifier(p', n', g')
    ensures p == p' && n == n' && g == g'
  {
    hide Decimal;
    StripPrefix(ROOT_TRANSITION_PREFIX, Decimal(p) + [':'] + (Decimal(n) + [':'] + Decimal(g)),
                Decimal(p') + [':'] + (Decimal(n') + [':'] + Decimal(g')));
    SplitAtColon(Decimal(p), Decimal(n) + [':'] + Decimal(g), Decimal(p'), Decimal(n') + [':'] + Decimal(g'));
    SplitAtColon(Decimal(n), Decimal(g), Decimal(n'), Decimal(g'));
    DecimalInjective(p, p');
    DecimalInjective(n, n');
    DecimalInjective(g, g');
  }

  lemma DigestHasNoColon(d: Digest)
    ensures ':' !in d
  {
    assert ':' !in HEX_DIGITS;
  }

  /** One identifier names one (root fingerprint, generation), and never a root transition. */
  lemma {:induction false} SigningKeyManifestIdentifierInjective(r: Digest, g: nat, r': Digest, g': nat)
    requires SigningKeyManifestIdentifier(r, g) == SigningKeyManifestIdentifier(r', g')
    ensures r == r' && g == g'
  {
    hide Decimal;
    StripPrefix(SIGNING_KEY_MANIFEST_PREFIX, r + [':'] + Decimal(g), r' + [':'] + Decimal(g'));
    DigestHasNoColon(r);
    DigestHasNoColon(r');
    SplitAtColon(r, Decimal(g), r', Decimal(g'));
    DecimalInjective(g, g');
  }

  lemma {:induction false} IdentifierKindsDisjoint(p: nat, n: nat, g: nat, r: Digest, g': nat)
    ensures RootTransitionIdentifier(p, n, g) != SigningKeyManifestIdentifier(r, g')
  {
    assert RootTransitionIdentifier(p, n, g)[0] == 'r';
    assert SigningKeyManifestIdentifier(r, g')[0] == 's';
  }
}
