/**
 * The test-data provider of the suite: generated e-mail addresses, user names and
 * passwords, and the fixed SauceDemo credentials and product names.
 *
 * The generators read the clock and a random source. Here those become inputs:
 * `Date.now()` is a `timestamp`, every `Math.floor(Math.random() * n)` is a natural
 * number below `n`, and the random-comparator sort at the end of the password
 * generator is an arbitrary permutation, given as a sequence of picks.
 */
module TestData {
  import opened Wrappers
  import opened JsText

  // ---------------------------------------------------------------------------
  // generateRandomEmail, generateRandomUsername
  // ---------------------------------------------------------------------------

  /** The largest time value an ECMAScript Date can hold, in milliseconds. */
  const MaxTimeValue: nat := 8_640_000_000_000_000

  /** `Math.floor(Math.random() * 10000)` lies in 0..9999. */
  const RandomSuffixBound: nat := 10000

  /** A time value and a random suffix, as the generators draw them. */
  predicate ValidDraw(timestamp: nat, random: nat) {
    timestamp <= MaxTimeValue && random < RandomSuffixBound
  }

  /** A digit run as a rendered number writes it: non-empty, with no leading zero. */
  predicate CanonicalDigits(digits: string) {
    |digits| >= 1 && (digits[0] == '0' ==> |digits| == 1)
  }

  /**
   * A run of decimal digits with no leading zero at the front of `s`, followed by
   * `sep`: the value of the run and what follows the separator.
   */
  function ReadNumber(s: string, sep: char): Option<(nat, string)> {
    var digits := RadixPrefix(s, 10);
    if !CanonicalDigits(digits) || |digits| == |s| || s[|digits|] != sep then None
    else Some((DigitsValue(digits, 10), s[|digits| + 1..]))
  }

  /**
   * A run of decimal digits with no leading zero at the end of `s`, preceded by
   * `sep`: what comes before the separator and the value of the run.
   */
  function ReadNumberFromEnd(s: string, sep: char): Option<(string, nat)> {
    var digits := DigitSuffix(s);
    if !CanonicalDigits(digits) || |digits| == |s| || s[|s| - |digits| - 1] != sep then None
    else Some((s[..|s| - |digits| - 1], DigitsValue(digits, 10)))
  }

  /** Only the rendering of `n`, the separator and `rest` read as `n` and `rest`. */
  lemma ReadNumberPins(s: string, sep: char, n: nat, rest: string)
    requires ReadNumber(s, sep) == Some((n, rest))
    ensures s == NatToString(n) + [sep] + rest
  {
    var digits := RadixPrefix(s, 10);
    CanonicalDigitsRoundTrip(digits);
    assert s == digits + [sep] + rest;
  }

  /** Only `init`, the separator and the rendering of `n` read from the end as `init` and `n`. */
  lemma ReadNumberFromEndPins(s: string, sep: char, init: string, n: nat)
    requires ReadNumberFromEnd(s, sep) == Some((init, n))
    ensures s == init + [sep] + NatToString(n)
  {
    var digits := DigitSuffix(s);
    CanonicalDigitsRoundTrip(digits);
    assert s == init + [sep] + digits;
  }

  lemma ReadNumberOf(n: nat, sep: char, rest: string)
    requires !IsDigit(sep)
    ensures ReadNumber(NatToString(n) + [sep] + rest, sep) == Some((n, rest))
  {
    var d := NatToString(n);
    var s := d + [sep] + rest;
    assert s == d + ([sep] + rest);
    DigitPrefixOf(d, [sep] + rest);
    assert s[|d|] == sep && s[|d| + 1..] == rest;
    NatToStringRoundTrip(n);
  }

  lemma ReadNumberFromEndOf(init: string, sep: char, n: nat)
    requires !IsDigit(sep)
    ensures ReadNumberFromEnd(init + [sep] + NatToString(n), sep) == Some((init, n))
  {
    var d := NatToString(n);
    var s := init + [sep] + d;
    DigitSuffixOf(init + [sep], d);
    assert s[|s| - |d| - 1] == sep && s[..|s| - |d| - 1] == init;
    NatToStringRoundTrip(n);
  }

  datatype EmailParts = EmailParts(timestamp: nat, random: nat, domain: string)

  /** Reads an address of the form `test_<digits>_<digits>@<domain>`. */
  function ParseEmail(email: string): Option<EmailParts> {
    if "test_" <= email then ParseEmailFields(email[5..]) else None
  }

  /** Reads `<digits>_<digits>@<domain>`. */
  function ParseEmailFields(fields: string): Option<EmailParts> {
    match ReadNumber(fields, '_')
    case None => None
    case Some((timestamp, tail)) =>
      match ReadNumber(tail, '@')
      case None => None
      case Some((random, domain)) => Some(EmailParts(timestamp, random, domain))
  }

  /** A drawn timestamp renders in one to 16 digits, a drawn suffix in one to four. */
  lemma DrawLengths(timestamp: nat, random: nat)
    requires ValidDraw(timestamp, random)
    ensures 1 <= |NatToString(timestamp)| <= 16
    ensures 1 <= |NatToString(random)| <= 4
  {
    assert Pow10(4) == 10000;
    assert Pow10(8) == 100_000_000;
    assert Pow10(12) == 1_000_000_000_000;
    assert Pow10(16) == 10_000_000_000_000_000;
    NatToStringLength(timestamp, 16);
    NatToStringLength(random, 4);
  }

  /**
   * `generateRandomEmail(domain)`: `test_<timestamp>_<random>@<domain>`. The address
   * starts with `test_`; around the domain it holds 9 to 27 characters, since the
   * timestamp has at most 16 digits and the random suffix at most four; and the
   * timestamp, the random suffix and the domain can all be read back from it.
   */
  function GenerateRandomEmail(timestamp: nat, random: nat, domain: string := "test.com"): (email: string)
    requires ValidDraw(timestamp, random)
    ensures "test_" <= email
    ensures |domain| + 9 <= |email| <= |domain| + 27
    ensures ParseEmail(email) == Some(EmailParts(timestamp, random, domain))
  {
    DrawLengths(timestamp, random);
    EmailRoundTrip(timestamp, random, domain);
    "test_" + NatToString(timestamp) + "_" + NatToString(random) + "@" + domain
  }

  lemma EmailRoundTrip(timestamp: nat, random: nat, domain: string)
    ensures var email := "test_" + NatToString(timestamp) + "_" + NatToString(random) + "@" + domain;
            ParseEmail(email) == Some(EmailParts(timestamp, random, domain))
  {
    var a, b := NatToString(timestamp), NatToString(random);
    var tail := b + "@" + domain;
    var fields := a + "_" + tail;
    assert ParseEmailFields(fields) == Some(EmailParts(timestamp, random, domain)) by {
      ReadNumberOf(timestamp, '_', tail);
      ReadNumberOf(random, '@', domain);
    }
    var email := "test_" + a + "_" + b + "@" + domain;
    Regroup("test_", a, "_", b, "@", domain);
    assert "test_" <= email && email[5..] == fields;
  }

  lemma PrefixSplit(p: string, s: string)
    requires p <= s
    ensures s == p + s[|p|..]
  {
  }

  lemma PrefixOfConcat(p: string, q: string)
    ensures p <= p + q
  {
    assert (p + q)[..|p|] == p;
  }

  /** Regrouping a concatenation of six strings, for the formats above. */
  lemma Regroup(p: string, a: string, s1: string, b: string, s2: string, d: string)
    ensures p + a + s1 + b + s2 + d == p + (a + s1 + (b + s2 + d))
  {
  }

  /** The generated address is the only one that reads back as its parts. */
  lemma ParsedEmailIsGenerated(email: string, timestamp: nat, random: nat, domain: string)
    requires ParseEmail(email) == Some(EmailParts(timestamp, random, domain))
    ensures email == "test_" + NatToString(timestamp) + "_" + NatToString(random) + "@" + domain
  {
    assert "test_" <= email && ParseEmailFields(email[5..]) == ParseEmail(email);
    var fields := email[5..];
    ParsedFieldsAreGenerated(fields, timestamp, random, domain);
    PrefixSplit("test_", email);
    Regroup("test_", NatToString(timestamp), "_", NatToString(random), "@", domain);
  }

  lemma ParsedFieldsAreGenerated(fields: string, timestamp: nat, random: nat, domain: string)
    requires ParseEmailFields(fields) == Some(EmailParts(timestamp, random, domain))
    ensures fields == NatToString(timestamp) + "_" + (NatToString(random) + "@" + domain)
  {
    var first := ReadNumber(fields, '_');
    var tail := first.value.1;
    assert first.value.0 == timestamp && ReadNumber(tail, '@') == Some((random, domain));
    ReadNumberPins(fields, '_', timestamp, tail);
    ReadNumberPins(tail, '@', random, domain);
  }

  /** Two generated addresses are equal only when all that went into them is. */
  lemma EmailInjective(t1: nat, r1: nat, d1: string, t2: nat, r2: nat, d2: string)
    requires ValidDraw(t1, r1) && ValidDraw(t2, r2)
    requires GenerateRandomEmail(t1, r1, d1) == GenerateRandomEmail(t2, r2, d2)
    ensures t1 == t2 && r1 == r2 && d1 == d2
  {
    assert ParseEmail(GenerateRandomEmail(t1, r1, d1)) == Some(EmailParts(t1, r1, d1));
  }

  datatype UsernameParts = UsernameParts(prefix: string, timestamp: nat, random: nat)

  /** Reads a name of the form `<prefix>_<digits>_<digits>`, from the right. */
  function ParseUsername(name: string): Option<UsernameParts> {
    match ReadNumberFromEnd(name, '_')
    case None => None
    case Some((rest, random)) =>
      match ReadNumberFromEnd(rest, '_')
      case None => None
      case Some((prefix, timestamp)) => Some(UsernameParts(prefix, timestamp, random))
  }

  /**
   * `generateRandomUsername(prefix)`: `<prefix>_<timestamp>_<random>`. The name starts
   * with the prefix and `_`; after the prefix it holds 4 to 22 characters; and the
   * prefix, the timestamp and the random suffix can all be read back from it.
   */
  function GenerateRandomUsername(timestamp: nat, random: nat, prefix: string := "user"): (name: string)
    requires ValidDraw(timestamp, random)
    ensures prefix + "_" <= name
    ensures |prefix| + 4 <= |name| <= |prefix| + 22
    ensures ParseUsername(name) == Some(UsernameParts(prefix, timestamp, random))
  {
    DrawLengths(timestamp, random);
    UsernameRoundTrip(timestamp, random, prefix);
    UsernameLayout(prefix, NatToString(timestamp), NatToString(random));
    prefix + "_" + NatToString(timestamp) + "_" + NatToString(random)
  }

  lemma UsernameLayout(prefix: string, a: string, b: string)
    ensures prefix + "_" <= prefix + "_" + a + "_" + b
    ensures |prefix + "_" + a + "_" + b| == |prefix| + |a| + |b| + 2
  {
    PrefixOfConcat(prefix + "_", a + "_" + b);
    assert prefix + "_" + a + "_" + b == (prefix + "_") + (a + "_" + b);
  }

  lemma UsernameRoundTrip(timestamp: nat, random: nat, prefix: string)
    ensures var name := prefix + "_" + NatToString(timestamp) + "_" + NatToString(random);
            ParseUsername(name) == Some(UsernameParts(prefix, timestamp, random))
  {
    var a, b := NatToString(timestamp), NatToString(random);
    var rest := prefix + "_" + a;
    assert prefix + "_" + a + "_" + b == rest + "_" + b;
    ReadNumberFromEndOf(rest, '_', random);
    ReadNumberFromEndOf(prefix, '_', timestamp);
  }

  /** The generated name is the only one that reads back as its parts. */
  lemma ParsedUsernameIsGenerated(name: string, prefix: string, timestamp: nat, random: nat)
    requires ParseUsername(name) == Some(UsernameParts(prefix, timestamp, random))
    ensures name == prefix + "_" + NatToString(timestamp) + "_" + NatToString(random)
  {
    var rest :| ReadNumberFromEnd(name, '_') == Some((rest, random));
    ReadNumberFromEndPins(name, '_', rest, random);
    ReadNumberFromEndPins(rest, '_', prefix, timestamp);
  }

  /** Two generated user names are equal only when all that went into them is. */
  lemma UsernameInjective(t1: nat, r1: nat, p1: string, t2: nat, r2: nat, p2: string)
    requires ValidDraw(t1, r1) && ValidDraw(t2, r2)
    requires GenerateRandomUsername(t1, r1, p1) == GenerateRandomUsername(t2, r2, p2)
    ensures t1 == t2 && r1 == r2 && p1 == p2
  {
    assert ParseUsername(GenerateRandomUsername(t1, r1, p1)) == Some(UsernameParts(p1, t1, r1));
  }

  // ---------------------------------------------------------------------------
  // generateRandomPassword
  // ---------------------------------------------------------------------------

  const Uppercase: string := "ABCDEFGHIJKLMNOPQRSTUVWXYZ"
  const Lowercase: string := "abcdefghijklmnopqrstuvwxyz"
  const Numbers: string := "0123456789"
  const Special: string := "!@#$%^&*()_+-="

  /** The 76 characters the padding is drawn from. */
  const Alphabet: string := Uppercase + Lowercase + Numbers + Special

  /** The four classes are disjoint and make up the 76-character alphabet. */
  lemma AlphabetShape()
    ensures |Uppercase| == 26 && |Lowercase| == 26 && |Numbers| == 10 && |Special| == 14
    ensures |Alphabet| == 76
    ensures forall c :: c in Alphabet <==> c in Uppercase || c in Lowercase || c in Numbers || c in Special
  {
  }

  /** The length of the generated password: never below four. */
  function PasswordLength(length: int): nat {
    if length > 4 then length else 4
  }

  predicate HasCharIn(s: string, chars: string) {
    exists i :: 0 <= i < |s| && s[i] in chars
  }

  /** What a generated password guarantees. */
  predicate IsGeneratedPassword(password: string, length: int) {
    && |password| == PasswordLength(length)
    && HasCharIn(password, Uppercase)
    && HasCharIn(password, Lowercase)
    && HasCharIn(password, Numbers)
    && HasCharIn(password, Special)
    && forall i :: 0 <= i < |password| ==> password[i] in Alphabet
  }

  predicate ValidFill(fill: seq<nat>) {
    forall j :: 0 <= j < |fill| ==> fill[j] < |Alphabet|
  }

  /** The padding characters, one per loop iteration. */
  function FillChars(fill: seq<nat>): (s: string)
    requires ValidFill(fill)
    ensures |s| == |fill|
    ensures forall i :: 0 <= i < |s| ==> s[i] == Alphabet[fill[i]]
  {
    if fill == [] then [] else FillChars(fill[..|fill| - 1]) + [Alphabet[fill[|fill| - 1]]]
  }

  /** `password` just before the final shuffle: one character of each class, then the padding. */
  function Unshuffled(upper: nat, lower: nat, digit: nat, special: nat, fill: seq<nat>): (s: string)
    requires upper < |Uppercase| && lower < |Lowercase| && digit < |Numbers| && special < |Special|
    requires ValidFill(fill)
    ensures |s| == 4 + |fill|
    ensures s[0] in Uppercase && s[1] in Lowercase && s[2] in Numbers && s[3] in Special
    ensures forall i :: 0 <= i < |s| ==> s[i] in Alphabet
  {
    [Uppercase[upper], Lowercase[lower], Numbers[digit], Special[special]] + FillChars(fill)
  }

  /**
   * A permutation of `n` items told as picks: the j-th pick chooses one of the
   * `n - j` items not picked yet.
   */
  predicate ValidOrder(order: seq<nat>, n: nat) {
    |order| == n && forall j :: 0 <= j < n ==> order[j] < n - j
  }

  /** `s.split('').sort(() => Math.random() - 0.5).join('')`, for the order the sort happens to produce. */
  function Shuffle(s: string, order: seq<nat>): (r: string)
    requires ValidOrder(order, |s|)
    ensures |r| == |s| && multiset(r) == multiset(s)
    decreases |s|
  {
    if s == [] then []
    else
      var k := order[0];
      assert s == s[..k] + [s[k]] + s[k + 1..];
      [s[k]] + Shuffle(s[..k] + s[k + 1..], order[1..])
  }

  lemma RemoveAt(s: string, k: nat)
    requires k < |s|
    ensures multiset(s[..k] + s[k + 1..]) == multiset(s) - multiset{s[k]}
  {
    assert s == s[..k] + [s[k]] + s[k + 1..];
  }

  /** Where the first character of a permutation `t` of `s` sits in `s`, and what is left. */
  lemma FirstPick(s: string, t: string) returns (k: nat)
    requires multiset(t) == multiset(s) && t != []
    ensures k < |s| && s[k] == t[0]
    ensures multiset(t[1..]) == multiset(s[..k] + s[k + 1..])
  {
    assert t[0] in multiset(t) && t[0] in s;
    k := IndexIn(s, t[0]);
    RemoveAt(s, k);
    RemoveAt(t, 0);
    assert t[..0] + t[1..] == t[1..];
  }

  lemma ShuffleStep(s: string, t: string, k: nat, tail: seq<nat>)
    requires k < |s| && t != [] && s[k] == t[0]
    requires ValidOrder(tail, |s| - 1) && Shuffle(s[..k] + s[k + 1..], tail) == t[1..]
    ensures ValidOrder([k] + tail, |s|) && Shuffle(s, [k] + tail) == t
  {
    var order := [k] + tail;
    forall j | 0 < j < |s| ensures order[j] < |s| - j {
      assert order[j] == tail[j - 1];
    }
    assert order[1..] == tail;
    assert t == [t[0]] + t[1..];
  }

  /** Conversely, every arrangement of the characters of `s` is some shuffle of `s`. */
  lemma {:induction false} EveryPermutationIsAShuffle(s: string, t: string) returns (order: seq<nat>)
    requires multiset(t) == multiset(s)
    ensures ValidOrder(order, |s|) && Shuffle(s, order) == t
    decreases |s|
  {
    assert |t| == |multiset(t)|;
    if s == [] {
      order := [];
    } else {
      var k := FirstPick(s, t);
      var tail := EveryPermutationIsAShuffle(s[..k] + s[k + 1..], t[1..]);
      ShuffleStep(s, t, k, tail);
      order := [k] + tail;
    }
  }

  /** A permutation keeps every character class a string covers, and its alphabet. */
  lemma PermutationKeepsClasses(s: string, t: string, chars: string)
    requires multiset(t) == multiset(s)
    ensures HasCharIn(s, chars) ==> HasCharIn(t, chars)
    ensures (forall i :: 0 <= i < |s| ==> s[i] in chars) ==> forall i :: 0 <= i < |t| ==> t[i] in chars
  {
    if HasCharIn(s, chars) {
      var i :| 0 <= i < |s| && s[i] in chars;
      assert s[i] in multiset(t);
      var j :| 0 <= j < |t| && t[j] == s[i];
    }
    if forall i :: 0 <= i < |s| ==> s[i] in chars {
      forall j | 0 <= j < |t| ensures t[j] in chars {
        assert t[j] in multiset(s);
      }
    }
  }

  /** However the sort orders it, the shuffled password keeps what its unshuffled form guarantees. */
  lemma ShuffledPasswordIsGenerated(upper: nat, lower: nat, digit: nat, special: nat, fill: seq<nat>, order: seq<nat>, length: int)
    requires upper < |Uppercase| && lower < |Lowercase| && digit < |Numbers| && special < |Special|
    requires ValidFill(fill) && |fill| == PasswordLength(length) - 4
    requires ValidOrder(order, PasswordLength(length))
    ensures IsGeneratedPassword(Shuffle(Unshuffled(upper, lower, digit, special, fill), order), length)
  {
    var s := Unshuffled(upper, lower, digit, special, fill);
    var t := Shuffle(s, order);
    PermutationKeepsClasses(s, t, Uppercase);
    PermutationKeepsClasses(s, t, Lowercase);
    PermutationKeepsClasses(s, t, Numbers);
    PermutationKeepsClasses(s, t, Special);
    PermutationKeepsClasses(s, t, Alphabet);
  }

  /** The first position of `c` in `s`, or `|s|` when it does not occur. */
  function IndexIn(s: string, c: char): (k: nat)
    ensures k <= |s|
    ensures c in s <==> k < |s|
    ensures k < |s| ==> s[k] == c && c !in s[..k]
  {
    if s == [] then 0
    else if s[0] == c then 0
    else
      var k := 1 + IndexIn(s[1..], c);
      assert k < |s| ==> s[..k] == [s[0]] + s[1..][..k - 1];
      k
  }

  /** The four classes have no character in common. */
  lemma ClassesDisjoint(c: char)
    ensures c in Uppercase ==> 'A' <= c <= 'Z'
    ensures c in Lowercase ==> 'a' <= c <= 'z'
    ensures c in Numbers ==> '0' <= c <= '9'
    ensures c in Special ==> !('A' <= c <= 'Z') && !('a' <= c <= 'z') && !('0' <= c <= '9')
  {
  }

  /** Some occurrence of `c` taken out of `s`. */
  lemma TakeOut(s: string, c: char) returns (r: string)
    requires c in multiset(s)
    ensures |r| == |s| - 1 && multiset(r) == multiset(s) - multiset{c}
  {
    var k := IndexIn(s, c);
    RemoveAt(s, k);
    r := s[..k] + s[k + 1..];
  }

  /** The draws that spell out `rest` as padding. */
  lemma FillFor(rest: string) returns (fill: seq<nat>)
    requires forall i :: 0 <= i < |rest| ==> rest[i] in Alphabet
    ensures ValidFill(fill) && FillChars(fill) == rest
  {
    fill := seq(|rest|, i requires 0 <= i < |rest| => IndexIn(Alphabet, rest[i]));
    assert ValidFill(fill);
    assert forall i :: 0 <= i < |rest| ==> FillChars(fill)[i] == rest[i];
  }

  /** The characters of `cs` taken out of `s`, one occurrence each. */
  lemma {:induction false} TakeOutAll(s: string, cs: string) returns (rest: string)
    requires multiset(cs) <= multiset(s)
    ensures |rest| == |s| - |cs|
    ensures multiset(cs + rest) == multiset(s)
    decreases |cs|
  {
    if cs == [] {
      rest := s;
      assert cs + rest == s;
    } else {
      var c, more := cs[0], cs[1..];
      assert cs == [c] + more;
      assert multiset(cs) == multiset{c} + multiset(more);
      LessOne(multiset(more), multiset(s), c);
      var r := TakeOut(s, c);
      rest := TakeOutAll(r, more);
      PutBack(s, c, more, r, rest);
    }
  }

  /** Putting one taken-out character back in front restores the whole multiset. */
  lemma PutBack(s: string, c: char, more: string, r: string, rest: string)
    requires c in multiset(s) && multiset(r) == multiset(s) - multiset{c}
    requires multiset(more + rest) == multiset(r)
    ensures multiset(([c] + more) + rest) == multiset(s)
  {
    assert ([c] + more) + rest == [c] + (more + rest);
  }

  lemma LessOne(a: multiset<char>, b: multiset<char>, c: char)
    requires multiset{c} + a <= b
    ensures c in b
    ensures a <= b - multiset{c} && multiset{c} + (b - multiset{c}) == b
  {
    assert c in b;
  }

  /**
   * The four guaranteed characters of `p` set aside, one of each class, and what
   * is left over.
   */
  lemma SplitPassword(p: string, length: int) returns (cu: char, cl: char, cd: char, cs: char, rest: string)
    requires IsGeneratedPassword(p, length)
    ensures cu in Uppercase && cl in Lowercase && cd in Numbers && cs in Special
    ensures multiset([cu, cl, cd, cs] + rest) == multiset(p)
    ensures |rest| == PasswordLength(length) - 4
    ensures forall i :: 0 <= i < |rest| ==> rest[i] in Alphabet
  {
    var iu :| 0 <= iu < |p| && p[iu] in Uppercase;
    var il :| 0 <= il < |p| && p[il] in Lowercase;
    var id :| 0 <= id < |p| && p[id] in Numbers;
    var isp :| 0 <= isp < |p| && p[isp] in Special;
    cu, cl, cd, cs := p[iu], p[il], p[id], p[isp];
    assert cu != cl && cu != cd && cu != cs && cl != cd && cl != cs && cd != cs by {
      ClassesDisjoint(cu);
      ClassesDisjoint(cl);
      ClassesDisjoint(cd);
      ClassesDisjoint(cs);
    }
    assert multiset([cu, cl, cd, cs]) <= multiset(p) by {
      assert cu in multiset(p) && cl in multiset(p) && cd in multiset(p) && cs in multiset(p);
    }
    rest := TakeOutAll(p, [cu, cl, cd, cs]);
    forall i | 0 <= i < |rest| ensures rest[i] in Alphabet {
      assert rest[i] in multiset([cu, cl, cd, cs] + rest);
      assert rest[i] in multiset(p);
    }
  }

  /**
   * Conversely, every string with the guaranteed length, classes and alphabet is
   * what some draws and some shuffle order produce.
   */
  lemma GeneratedPasswordIsReachable(p: string, length: int)
    returns (upper: nat, lower: nat, digit: nat, special: nat, fill: seq<nat>, order: seq<nat>)
    requires IsGeneratedPassword(p, length)
    ensures upper < |Uppercase| && lower < |Lowercase| && digit < |Numbers| && special < |Special|
    ensures ValidFill(fill) && |fill| == PasswordLength(length) - 4
    ensures ValidOrder(order, PasswordLength(length))
    ensures Shuffle(Unshuffled(upper, lower, digit, special, fill), order) == p
  {
    var cu, cl, cd, cs, rest := SplitPassword(p, length);
    upper, lower, digit, special := IndexIn(Uppercase, cu), IndexIn(Lowercase, cl), IndexIn(Numbers, cd), IndexIn(Special, cs);
    fill := FillFor(rest);
    var s := Unshuffled(upper, lower, digit, special, fill);
    assert s == [cu, cl, cd, cs] + rest;
    order := EveryPermutationIsAShuffle(s, p);
  }

  /**
   * `generateRandomPassword(length)`: one upper-case letter, one lower-case letter,
   * one digit and one special character, padded from the whole alphabet while the
   * counter `i` runs from 4 below `length`, then shuffled. `fill` holds the padding
   * draws and `order` the order the shuffle produces.
   */
  method GenerateRandomPassword(upper: nat, lower: nat, digit: nat, special: nat, fill: seq<nat>,
                                order: seq<nat>, length: int := 12)
    returns (password: string)
    requires upper < |Uppercase| && lower < |Lowercase| && digit < |Numbers| && special < |Special|
    requires ValidFill(fill) && |fill| == PasswordLength(length) - 4
    requires ValidOrder(order, PasswordLength(length))
    ensures password == Shuffle(Unshuffled(upper, lower, digit, special, fill), order)
    ensures IsGeneratedPassword(password, length)
  {
    password := "";
    password := password + [Uppercase[upper]];
    password := password + [Lowercase[lower]];
    password := password + [Numbers[digit]];
    password := password + [Special[special]];

    var i := 4;
    while i < length
      invariant 4 <= i <= PasswordLength(length)
      invariant password == Unshuffled(upper, lower, digit, special, fill[..i - 4])
    {
      assert fill[..i - 3][..i - 4] == fill[..i - 4];
      password := password + [Alphabet[fill[i - 4]]];
      i := i + 1;
    }
    assert fill[..i - 4] == fill;

    ShuffledPasswordIsGenerated(upper, lower, digit, special, fill, order, length);
    password := Shuffle(password, order);
  }

  // ---------------------------------------------------------------------------
  // Fixtures
  // ---------------------------------------------------------------------------

  datatype Credentials = Credentials(username: string, password: string)

  /** The four SauceDemo accounts the getters return. */
  datatype SauceDemoAccount = Standard | LockedOut | Problem | PerformanceGlitch

  /** The password every SauceDemo account shares. */
  const SauceDemoPassword: string := "secret_sauce"

  /**
   * `getStandardUser()`, `getLockedOutUser()`, `getProblemUser()` and
   * `getPerformanceUser()`: every account has the shared password, with its own
   * user name.
   */
  function SauceDemoUser(account: SauceDemoAccount): (c: Credentials)
    ensures c.password == SauceDemoPassword
  {
    match account
    case Standard => Credentials("standard_user", SauceDemoPassword)
    case LockedOut => Credentials("locked_out_user", SauceDemoPassword)
    case Problem => Credentials("problem_user", SauceDemoPassword)
    case PerformanceGlitch => Credentials("performance_glitch_user", SauceDemoPassword)
  }

  /** Different accounts have different user names. */
  lemma SauceDemoUsersDistinct(a: SauceDemoAccount, b: SauceDemoAccount)
    requires a != b
    ensures SauceDemoUser(a).username != SauceDemoUser(b).username
  {
  }

  /** `getInvalidCredentials()`: neither its user name nor its password is any account's. */
  function InvalidCredentials(): (c: Credentials)
    ensures forall a :: SauceDemoUser(a).username != c.username
    ensures forall a :: SauceDemoUser(a).password != c.password
  {
    Credentials("invalid_user", "wrong_password")
  }

  /** The characters the product names are made of. */
  predicate IsIdChar(c: char) {
    'a' <= c <= 'z' || '0' <= c <= '9' || c == '-' || c == '.' || c == '(' || c == ')'
  }

  predicate IsIdText(s: string) {
    forall c :: c in s ==> IsIdChar(c)
  }

  lemma IdTextIsClean(s: string)
    requires IsIdText(s)
    ensures NoWhitespace(s) && NoUpperAscii(s)
  {
    assert forall i :: 0 <= i < |s| ==> s[i] in s;
  }

  /** `getProductNames()`: six distinct names, in the form the application uses in its `data-test` ids. */
  function ProductNames(): (names: seq<string>)
    ensures |names| == 6
    ensures forall i, j :: 0 <= i < j < |names| ==> names[i] != names[j]
  {
    var names := [
      "sauce-labs-backpack",
      "sauce-labs-bike-light",
      "sauce-labs-bolt-t-shirt",
      "sauce-labs-fleece-jacket",
      "sauce-labs-onesie",
      "test.allthethings()-t-shirt-(red)" ];
    // The names have six different lengths, so no two of them are equal.
    assert |names[0]| == 19 && |names[1]| == 21 && |names[2]| == 23;
    assert |names[3]| == 24 && |names[4]| == 17 && |names[5]| == 33;
    names
  }

  /**
   * Every product name is made only of lower-case letters, digits, `-`, `.`, `(` and
   * `)`, so it is already lower-case and free of whitespace.
   */
  lemma ProductNamesAreIdText()
    ensures forall i :: 0 <= i < |ProductNames()| ==> IsIdText(ProductNames()[i])
    ensures forall i :: 0 <= i < |ProductNames()| ==>
      NoWhitespace(ProductNames()[i]) && NoUpperAscii(ProductNames()[i])
  {
    var names := ProductNames();
    assert forall i :: 0 <= i < |names| ==> IsIdText(names[i]);
    forall i | 0 <= i < |names| ensures NoWhitespace(names[i]) && NoUpperAscii(names[i]) {
      IdTextIsClean(names[i]);
    }
  }
}
