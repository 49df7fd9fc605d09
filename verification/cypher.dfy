/**
  `CypherService` (src/service/cypher.py): the stored verifier is Base64 of the
  password's UTF-8 octets, and the bearer token is Base64 of the UTF-8 octets
  of `email + ":" + verifier`. Neither is a hash: both are reversible, which
  this module states and proves.

  The Python methods return `None` when UTF-8 encoding raises. That happens
  only for strings holding lone surrogates, which a Dafny `string` (a sequence
  of Unicode scalar values) cannot hold, so both functions here are total.
 */
module Cypher {
  import opened Wrappers
  import Utf8
  import Base64

  /**
    `cypher_password`. The verifier's length is fixed by the UTF-8 length of
    the password, it uses only Base64 characters (so never ':'), and it is
    strictly longer than any non-empty password, so it never equals it.
   */
  function CypherPassword(password: string): (v: string)
    ensures |v| == 4 * ((|Utf8.Encode(password)| + 2) / 3)
    ensures forall i :: 0 <= i < |v| ==> Base64.IsBase64Char(v[i])
    ensures ':' !in v
    ensures |password| > 0 ==> |v| > |password|
  {
    Base64.EncodeAlphabet(Utf8.Encode(password));
    Base64.Encode(Utf8.Encode(password))
  }

  /** Decodes a verifier back to the plaintext it was made from. */
  function RecoverPassword(v: string): (p: Option<string>)
  {
    match Base64.Decode(v)
    case None => None
    case Some(octets) => Utf8.Decode(octets)
  }

  /** The transform is reversible: the verifier gives the password back. */
  lemma RecoverCypherPassword(password: string)
    ensures RecoverPassword(CypherPassword(password)) == Some(password)
  {
    Base64.DecodeEncode(Utf8.Encode(password));
    Utf8.DecodeEncode(password);
  }

  /** Whatever `RecoverPassword` accepts is the verifier of what it returns. */
  lemma CypherRecoveredPassword(v: string)
    requires RecoverPassword(v).Some?
    ensures CypherPassword(RecoverPassword(v).value) == v
  {
    var octets := Base64.Decode(v).value;
    Base64.EncodeDecode(v);
    Utf8.EncodeDecode(octets);
  }

  /** Distinct passwords give distinct verifiers. */
  lemma CypherPasswordInjective(p: string, q: string)
    requires CypherPassword(p) == CypherPassword(q)
    ensures p == q
  {
    RecoverCypherPassword(p);
    RecoverCypherPassword(q);
  }

  /** A string that some password encodes to: what the user table stores. */
  predicate IsVerifier(v: string) {
    RecoverPassword(v).Some?
  }

  /** Verifiers are exactly the outputs of `CypherPassword`, so none contains ':'. */
  lemma VerifierHasNoColon(v: string)
    requires IsVerifier(v)
    ensures v == CypherPassword(RecoverPassword(v).value)
    ensures ':' !in v
  {
    CypherRecoveredPassword(v);
  }

  lemma CypherPasswordIsVerifier(password: string)
    ensures IsVerifier(CypherPassword(password))
  {
    RecoverCypherPassword(password);
  }

  /**
    `create_token`: the bearer token for an email and a stored verifier. It is
    never empty, which the authentication endpoint relies on when it uses the
    token as a truth value, and it holds no ':'.
   */
  function CreateToken(email: string, verifier: string): (t: string)
    ensures |t| > 0
    ensures forall i :: 0 <= i < |t| ==> Base64.IsBase64Char(t[i])
    ensures ':' !in t
  {
    Base64.EncodeAlphabet(Utf8.Encode(email + ":" + verifier));
    Base64.Encode(Utf8.Encode(email + ":" + verifier))
  }

  /**
    Splits a string at its last ':', as needed to read a token whose verifier
    part is colon-free; `None` when there is no ':' at all.
   */
  function SplitAtLastColon(s: string): (r: Option<(string, string)>)
    ensures r.None? <==> ':' !in s
    ensures r.Some? ==> s == r.value.0 + [':'] + r.value.1 && ':' !in r.value.1
    decreases |s|
  {
    if |s| == 0 then None
    else if s[|s| - 1] == ':' then Some((s[..|s| - 1], ""))
    else
      match SplitAtLastColon(s[..|s| - 1])
      case None => None
      case Some((front, back)) => Some((front, back + [s[|s| - 1]]))
  }

  /** If two ways of marking a ':' differ, the longer tail holds the other ':'. */
  lemma ColonInLongerTail(a: string, b: string, c: string, d: string)
    requires a + [':'] + b == c + [':'] + d
    requires |b| < |d|
    ensures ':' in d
  {
    var s := a + [':'] + b;
    var k := |s| - 1 - |b|;
    assert s[k] == ':';
    assert s[k] == d[|d| - |b| - 1];
  }

  /** A string with one marked ':' whose tail is colon-free splits only one way. */
  lemma LastColonUnique(a: string, b: string, c: string, d: string)
    requires ':' !in b && ':' !in d
    requires a + [':'] + b == c + [':'] + d
    ensures a == c && b == d
  {
    var s := a + [':'] + b;
    if |b| < |d| {
      ColonInLongerTail(a, b, c, d);
      assert false;
    } else if |d| < |b| {
      ColonInLongerTail(c, d, a, b);
      assert false;
    }
    assert a == s[..|a|] == c;
    assert b == s[|a| + 1..] == d;
  }

  lemma SplitAtLastColonJoin(email: string, verifier: string)
    requires ':' !in verifier
    ensures SplitAtLastColon(email + ":" + verifier) == Some((email, verifier))
  {
    var s := email + ":" + verifier;
    assert s[|email|] == ':';
    var r := SplitAtLastColon(s);
    LastColonUnique(r.value.0, r.value.1, email, verifier);
  }

  /** Reads the email and verifier back out of a token. */
  function ReadToken(t: string): (r: Option<(string, string)>)
  {
    match RecoverPassword(t)
    case None => None
    case Some(s) => SplitAtLastColon(s)
  }

  /**
    Round trip for tokens: when the verifier holds no ':' (every output of
    `CypherPassword`), the token gives back exactly the pair it was made from.
   */
  lemma ReadCreateToken(email: string, verifier: string)
    requires ':' !in verifier
    ensures ReadToken(CreateToken(email, verifier)) == Some((email, verifier))
  {
    RecoverCypherPassword(email + ":" + verifier);
    SplitAtLastColonJoin(email, verifier);
  }

  /** Hence a token determines its email and verifier uniquely. */
  lemma CreateTokenInjective(e1: string, v1: string, e2: string, v2: string)
    requires ':' !in v1 && ':' !in v2
    requires CreateToken(e1, v1) == CreateToken(e2, v2)
    ensures e1 == e2 && v1 == v2
  {
    ReadCreateToken(e1, v1);
    ReadCreateToken(e2, v2);
  }

  /**
    The colon-free hypothesis is needed: the token depends only on the joined
    string, so a ':' inside the verifier lets two different pairs collide.
   */
  lemma TokenCollisionWithColon()
    ensures CreateToken("a:b", "c") == CreateToken("a", "b:c")
  {
    assert "a:b" + ":" + "c" == "a" + ":" + "b:c";
  }
}
