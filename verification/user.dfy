/**
  The `User` record (src/domain/user.py). Python equality and hashing look at
  the email only; the model keeps structural equality for the datatype and
  states the Python notion as `SameUser`.
 */
module Users {

  /** `password` holds the stored verifier, never the plaintext (see UserService). */
  datatype User = User(email: string, password: string, nickname: string)

  /** `User.__eq__`: two users are the same user when their emails agree. */
  predicate SameUser(u: User, v: User) {
    u.email == v.email
  }

  /**
    `User.__hash__`: Python's string hash applied to the email. The string hash
    is salted per process, so it is a parameter here.
   */
  function Hash(u: User, hashString: string -> int): int {
    hashString(u.email)
  }

  /**
    `User.__str__`: the email, then ": ", then the nickname; the password takes
    no part in it.
   */
  function Display(u: User): (text: string)
    ensures |text| == |u.email| + 2 + |u.nickname|
    ensures text[..|u.email|] == u.email
    ensures text[|u.email|..|u.email| + 2] == ": "
    ensures text[|u.email| + 2..] == u.nickname
  {
    u.email + ": " + u.nickname
  }

  /** The two characters `__str__` puts between email and nickname occur in `s`. */
  predicate HasSeparator(s: string) {
    exists i :: 0 <= i < |s| - 1 && s[i] == ':' && s[i + 1] == ' '
  }

  /**
    If one text splits two ways, the longer email runs past the shorter one's
    separator and so contains it.
   */
  lemma SeparatorInLongerEmail(u: User, v: User)
    requires Display(u) == Display(v)
    requires |u.email| < |v.email|
    ensures |u.email| + 1 < |v.email|
    ensures HasSeparator(v.email)
  {
    var k := |u.email|;
    var text := Display(u);
    assert text[k] == ':' && text[k + 1] == ' ';
    assert v.email[k] == ':';
    assert k + 1 != |v.email|;
    assert v.email[k + 1] == ' ';
  }

  /**
    The text form can be read back: when neither email contains ": ", equal
    texts come from users with equal emails and equal nicknames.
   */
  lemma DisplayReadBack(u: User, v: User)
    requires !HasSeparator(u.email) && !HasSeparator(v.email)
    requires Display(u) == Display(v)
    ensures u.email == v.email && u.nickname == v.nickname
  {
    var text := Display(u);
    if |u.email| < |v.email| {
      SeparatorInLongerEmail(u, v);
      assert false;
    } else if |v.email| < |u.email| {
      SeparatorInLongerEmail(v, u);
      assert false;
    }
    assert u.email == text[..|u.email|] == v.email;
    assert u.nickname == text[|u.email| + 2..] == v.nickname;
  }

  /** Without that hypothesis the text is ambiguous: ": " inside an email moves the split. */
  lemma DisplayAmbiguous(password: string)
    ensures Display(User("a: b", password, "c")) == Display(User("a", password, "b: c"))
  {
    assert "a: b" + ": " + "c" == "a" + ": " + "b: c";
  }

  /** Users differing only in password or nickname compare equal, and hash equally. */
  lemma SameUserIgnoresProfile(u: User, password: string, nickname: string, hashString: string -> int)
    ensures SameUser(u, u.(password := password, nickname := nickname))
    ensures Hash(u, hashString) == Hash(u.(password := password, nickname := nickname), hashString)
  {
  }

  /** Equal users hash equally, whatever the string hash is. */
  lemma SameUserSameHash(u: User, v: User, hashString: string -> int)
    requires SameUser(u, v)
    ensures Hash(u, hashString) == Hash(v, hashString)
  {
  }

  /** The display text does not change when only the password does. */
  lemma DisplayIgnoresPassword(u: User, password: string)
    ensures Display(u.(password := password)) == Display(u)
  {
  }
}
