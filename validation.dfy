/**
 * Input validators and sanitisers of src/utils/validation.ts, with the pieces of the
 * JavaScript string library they rely on (`\s`, `trim`, `slice`) written out.
 */
module Validation {

  /** The longest title and description the sanitisers keep. */
  const MaxTitleLength: nat := 200
  const MaxDescriptionLength: nat := 1000

  /** The shortest password `isValidPassword` accepts. */
  const MinPasswordLength: nat := 8

  // ------------------------------------------------------------------
  // White space and trim
  // ------------------------------------------------------------------

  /**
   * JavaScript's white space: the characters `\s` matches and `String.prototype.trim`
   * removes (WhiteSpace and LineTerminator of ECMAScript).
   */
  predicate IsWhitespace(c: char) {
    c == '\t' || c == '\n' || c == '\U{000B}' || c == '\U{000C}' || c == '\r' || c == ' '
    || c == '\U{00A0}' || c == '\U{1680}' || ('\U{2000}' <= c <= '\U{200A}')
    || c == '\U{2028}' || c == '\U{2029}' || c == '\U{202F}' || c == '\U{205F}'
    || c == '\U{3000}' || c == '\U{FEFF}'
  }

  predicate AllWhitespace(s: string) {
    forall i :: 0 <= i < |s| ==> IsWhitespace(s[i])
  }

  /** Drops the leading white space: the result is a suffix of `s` and starts with a non-blank. */
  function TrimStart(s: string): (r: string)
    ensures |r| <= |s| && r == s[|s| - |r|..]
    ensures AllWhitespace(s[..|s| - |r|])
    ensures r != [] ==> !IsWhitespace(r[0])
    decreases |s|
  {
    if s != [] && IsWhitespace(s[0]) then
      var r := TrimStart(s[1..]);
      assert s[..|s| - |r|] == [s[0]] + s[1..][..|s| - 1 - |r|];
      r
    else s
  }

  /** Drops the trailing white space: the result is a prefix of `s` and ends with a non-blank. */
  function TrimEnd(s: string): (r: string)
    ensures |r| <= |s| && r == s[..|r|]
    ensures AllWhitespace(s[|r|..])
    ensures r != [] ==> !IsWhitespace(r[|r| - 1])
    decreases |s|
  {
    if s != [] && IsWhitespace(s[|s| - 1]) then
      var r := TrimEnd(s[..|s| - 1]);
      assert s[|r|..] == s[..|s| - 1][|r|..] + [s[|s| - 1]];
      r
    else s
  }

  /** `s.trim()`. */
  function Trim(s: string): string {
    TrimEnd(TrimStart(s))
  }

  /**
   * What trim keeps: a contiguous piece of `s` that neither starts nor ends with white
   * space, and everything cut off on either side is white space.
   */
  lemma TrimIsInnerPiece(s: string) returns (lo: nat)
    ensures lo + |Trim(s)| <= |s| && Trim(s) == s[lo..lo + |Trim(s)|]
    ensures AllWhitespace(s[..lo]) && AllWhitespace(s[lo + |Trim(s)|..])
    ensures Trim(s) != [] ==> !IsWhitespace(Trim(s)[0]) && !IsWhitespace(Trim(s)[|Trim(s)| - 1])
  {
    var t := TrimStart(s);
    var r := TrimEnd(t);
    lo := |s| - |t|;
    assert s[lo + |r|..] == t[|r|..];
    if r != [] {
      assert r[0] == t[0];
    }
  }

  /** `s.trim().length === 0` holds exactly when every character of `s` is white space. */
  lemma TrimEmptyIff(s: string)
    ensures Trim(s) == [] <==> AllWhitespace(s)
  {
    var t := TrimStart(s);
    if Trim(s) == [] {
      assert t[0..] == t;
      assert t == [];
      assert s[..|s|] == s;
    } else {
      assert t[0] == s[|s| - |t|] && !IsWhitespace(s[|s| - |t|]);
    }
  }

  // ------------------------------------------------------------------
  // isValidEmail: /^[^\s@]+@[^\s@]+\.[^\s@]+$/
  // ------------------------------------------------------------------

  /** The character class `[^\s@]`. */
  predicate IsEmailChar(c: char) {
    !IsWhitespace(c) && c != '@'
  }

  predicate AllEmailChars(s: string) {
    forall i :: 0 <= i < |s| ==> IsEmailChar(s[i])
  }

  /**
   * The states of a deterministic automaton for the email pattern, named by what has been
   * read so far: nothing; some local-part characters; the `@`; some domain characters with
   * no usable dot yet; a dot that has a domain character before it; at least one character
   * after such a dot (the only accepting state); and a dead state.
   */
  datatype EmailState = Start | Local | AtSign | Host | HostDot | Suffix | Dead

  function Step(q: EmailState, c: char): EmailState {
    if IsEmailChar(c) then
      match q
      case Start => Local
      case Local => Local
      case AtSign => Host
      case Host => if c == '.' then HostDot else Host
      case HostDot => Suffix
      case Suffix => Suffix
      case Dead => Dead
    else if c == '@' && q == Local then AtSign
    else Dead
  }

  function Run(q: EmailState, s: string): EmailState
    decreases |s|
  {
    if s == [] then q else Run(Step(q, s[0]), s[1..])
  }

  /** `isValidEmail(email)`: the automaton, started at the beginning, ends in Suffix. */
  predicate IsValidEmail(email: string) {
    Run(Start, email) == Suffix
  }

  /** A domain part `[^\s@]+\.[^\s@]+`: no blanks or `@`, and a dot with a character on each side. */
  predicate IsDomain(s: string) {
    AllEmailChars(s) && exists k :: 1 <= k < |s| - 1 && s[k] == '.'
  }

  /** The strings each state still accepts. */
  predicate Accepts(q: EmailState, s: string) {
    match q
    case Start => exists a :: 0 < a < |s| && s[a] == '@' && AllEmailChars(s[..a]) && IsDomain(s[a + 1..])
    case Local => exists a :: 0 <= a < |s| && s[a] == '@' && AllEmailChars(s[..a]) && IsDomain(s[a + 1..])
    case AtSign => IsDomain(s)
    case Host => AllEmailChars(s) && exists k :: 0 <= k < |s| - 1 && s[k] == '.'
    case HostDot => s != [] && AllEmailChars(s)
    case Suffix => AllEmailChars(s)
    case Dead => false
  }

  lemma AllEmailCharsCons(c: char, rest: string)
    ensures AllEmailChars([c] + rest) <==> IsEmailChar(c) && AllEmailChars(rest)
  {
    var s := [c] + rest;
    assert s[0] == c;
    assert forall i :: 0 <= i < |rest| ==> rest[i] == s[i + 1];
  }

  /** Moving the `@` one place: `[c] + rest` splits at `a + 1` exactly when `rest` splits at `a`. */
  lemma SplitCons(c: char, rest: string, a: nat)
    requires a < |rest|
    ensures ([c] + rest)[a + 1] == rest[a]
    ensures ([c] + rest)[..a + 1] == [c] + rest[..a]
    ensures ([c] + rest)[a + 2..] == rest[a + 1..]
  {
  }

  /** One character from the start state: it must be a local-part character. */
  lemma StepStart(c: char, rest: string)
    ensures Accepts(Start, [c] + rest) <==> Accepts(Step(Start, c), rest)
  {
    var s := [c] + rest;
    if Accepts(Start, s) {
      var a :| 0 < a < |s| && s[a] == '@' && AllEmailChars(s[..a]) && IsDomain(s[a + 1..]);
      SplitCons(c, rest, a - 1);
      AllEmailCharsCons(c, rest[..a - 1]);
      assert Accepts(Local, rest);
    }
    if IsEmailChar(c) && Accepts(Local, rest) {
      var a :| 0 <= a < |rest| && rest[a] == '@' && AllEmailChars(rest[..a]) && IsDomain(rest[a + 1..]);
      SplitCons(c, rest, a);
      AllEmailCharsCons(c, rest[..a]);
      assert Accepts(Start, s);
    }
  }

  /** The local part continues from `rest`. */
  lemma StepLocalChar(c: char, rest: string)
    requires IsEmailChar(c)
    ensures Accepts(Local, [c] + rest) <==> Accepts(Local, rest)
  {
    var s := [c] + rest;
    if Accepts(Local, s) {
      var a :| 0 <= a < |s| && s[a] == '@' && AllEmailChars(s[..a]) && IsDomain(s[a + 1..]);
      assert a != 0;
      SplitCons(c, rest, a - 1);
      AllEmailCharsCons(c, rest[..a - 1]);
      assert Accepts(Local, rest);
    }
    if Accepts(Local, rest) {
      var a :| 0 <= a < |rest| && rest[a] == '@' && AllEmailChars(rest[..a]) && IsDomain(rest[a + 1..]);
      SplitCons(c, rest, a);
      AllEmailCharsCons(c, rest[..a]);
      assert Accepts(Local, s);
    }
  }

  /** An `@` after the local part leaves exactly the domain to read. */
  lemma StepLocalAt(rest: string)
    ensures Accepts(Local, ['@'] + rest) <==> IsDomain(rest)
  {
    var s := ['@'] + rest;
    assert s[..0] == [] && s[1..] == rest;
  }

  /** One character inside the local part: more of it, or the `@`. */
  lemma StepLocal(c: char, rest: string)
    ensures Accepts(Local, [c] + rest) <==> Accepts(Step(Local, c), rest)
  {
    if IsEmailChar(c) {
      StepLocalChar(c, rest);
    } else if c == '@' {
      StepLocalAt(rest);
    } else {
      var s := [c] + rest;
      forall a | 0 < a < |s| ensures !AllEmailChars(s[..a]) {
        assert s[..a][0] == c;
      }
    }
  }

  /** The first domain character, which may itself be a dot. */
  lemma StepAtSign(c: char, rest: string)
    ensures Accepts(AtSign, [c] + rest) <==> Accepts(Step(AtSign, c), rest)
  {
    var s := [c] + rest;
    AllEmailCharsCons(c, rest);
    if IsDomain(s) {
      var k :| 1 <= k < |s| - 1 && s[k] == '.';
      assert rest[k - 1] == '.';
    }
    if IsEmailChar(c) && Accepts(Host, rest) {
      var k :| 0 <= k < |rest| - 1 && rest[k] == '.';
      assert s[k + 1] == '.';
    }
  }

  /** A later domain character: a dot here has a domain character before it. */
  lemma StepHost(c: char, rest: string)
    ensures Accepts(Host, [c] + rest) <==> Accepts(Step(Host, c), rest)
  {
    var s := [c] + rest;
    AllEmailCharsCons(c, rest);
    if Accepts(Host, s) && c != '.' {
      var k :| 0 <= k < |s| - 1 && s[k] == '.';
      assert rest[k - 1] == '.';
    }
    if IsEmailChar(c) && c != '.' && Accepts(Host, rest) {
      var k :| 0 <= k < |rest| - 1 && rest[k] == '.';
      assert s[k + 1] == '.';
    }
    if c == '.' && rest != [] && AllEmailChars(rest) {
      assert s[0] == '.';
    }
  }

  lemma StepAccepts(q: EmailState, c: char, rest: string)
    ensures Accepts(q, [c] + rest) <==> Accepts(Step(q, c), rest)
  {
    AllEmailCharsCons(c, rest);
    match q {
      case Start => StepStart(c, rest);
      case Local => StepLocal(c, rest);
      case AtSign => StepAtSign(c, rest);
      case Host => StepHost(c, rest);
      case HostDot =>
      case Suffix =>
      case Dead =>
    }
  }

  /** Running from `q` reaches the accepting state exactly on the strings `q` accepts. */
  lemma {:induction false} RunAccepts(q: EmailState, s: string)
    ensures Run(q, s) == Suffix <==> Accepts(q, s)
    decreases |s|
  {
    if s != [] {
      RunAccepts(Step(q, s[0]), s[1..]);
      assert s == [s[0]] + s[1..];
      StepAccepts(q, s[0], s[1..]);
    }
  }

  lemma SeqAssoc<T>(a: seq<T>, b: seq<T>, c: seq<T>)
    ensures a + (b + c) == a + b + c
  {
  }

  /** Cuts a domain at a usable dot. */
  lemma DomainShape(host: string) returns (d: string, e: string)
    requires IsDomain(host)
    ensures host == d + "." + e && d != [] && e != []
    ensures AllEmailChars(d) && AllEmailChars(e)
  {
    var k :| 1 <= k < |host| - 1 && host[k] == '.';
    d, e := host[..k], host[k + 1..];
    assert host == host[..k] + host[k..];
    assert host[k..] == [host[k]] + host[k + 1..];
  }

  /** Every valid email splits as local `@` domain `.` suffix, each part non-empty and in `[^\s@]+`. */
  lemma ValidEmailShape(email: string) returns (l: string, d: string, e: string)
    requires IsValidEmail(email)
    ensures email == l + "@" + d + "." + e
    ensures l != [] && d != [] && e != []
    ensures AllEmailChars(l) && AllEmailChars(d) && AllEmailChars(e)
  {
    RunAccepts(Start, email);
    var a :| 0 < a < |email| && email[a] == '@' && AllEmailChars(email[..a]) && IsDomain(email[a + 1..]);
    var host := email[a + 1..];
    d, e := DomainShape(host);
    l := email[..a];
    calc {
      email;
      email[..a] + email[a..];
      { assert email[a..] == [email[a]] + host; }
      l + "@" + host;
      l + "@" + (d + "." + e);
      { SeqAssoc(l + "@", d, "." + e); }
      l + "@" + d + ("." + e);
      { SeqAssoc(l + "@" + d, ".", e); }
      l + "@" + d + "." + e;
    }
  }

  /** Every string of that shape is a valid email. */
  lemma ShapeIsValidEmail(l: string, d: string, e: string)
    requires l != [] && d != [] && e != []
    requires AllEmailChars(l) && AllEmailChars(d) && AllEmailChars(e)
    ensures IsValidEmail(l + "@" + d + "." + e)
  {
    var host := d + "." + e;
    var email := l + "@" + host;
    assert email[..|l|] == l && email[|l|] == '@' && email[|l| + 1..] == host;
    assert host[|d|] == '.';
    assert AllEmailChars(host) by {
      forall i | 0 <= i < |host| ensures IsEmailChar(host[i]) {
        if i < |d| {
          assert host[i] == d[i];
        } else if |d| < i {
          assert host[i] == e[i - |d| - 1];
        }
      }
    }
    assert IsDomain(host);
    assert Accepts(Start, email);
    RunAccepts(Start, email);
    assert l + "@" + d + "." + e == email;
  }

  /** The regular expression test, stated as the shape it describes (both directions). */
  lemma IsValidEmailIff(email: string)
    ensures IsValidEmail(email) <==>
      exists l: string, d: string, e: string ::
        email == l + "@" + d + "." + e && l != [] && d != [] && e != []
        && AllEmailChars(l) && AllEmailChars(d) && AllEmailChars(e)
  {
    if IsValidEmail(email) {
      var l, d, e := ValidEmailShape(email);
    }
    if exists l: string, d: string, e: string ::
        email == l + "@" + d + "." + e && l != [] && d != [] && e != []
        && AllEmailChars(l) && AllEmailChars(d) && AllEmailChars(e) {
      var l: string, d: string, e: string :|
        email == l + "@" + d + "." + e && l != [] && d != [] && e != []
        && AllEmailChars(l) && AllEmailChars(d) && AllEmailChars(e);
      ShapeIsValidEmail(l, d, e);
    }
  }

  /** A valid email holds no white space and exactly one `@`. */
  lemma ValidEmailHasOneAt(email: string) returns (at: nat)
    requires IsValidEmail(email)
    ensures at < |email| && email[at] == '@'
    ensures forall i :: 0 <= i < |email| && email[i] == '@' ==> i == at
    ensures forall i :: 0 <= i < |email| ==> !IsWhitespace(email[i])
  {
    var l, d, e := ValidEmailShape(email);
    at := |l|;
    var rest := d + "." + e;
    assert email == l + "@" + rest;
    forall i | 0 <= i < |email| ensures (email[i] == '@' ==> i == at) && !IsWhitespace(email[i]) {
      if i < at {
        assert email[i] == l[i];
      } else if at < i {
        assert email[i] == rest[i - at - 1];
        if i - at - 1 < |d| {
          assert rest[i - at - 1] == d[i - at - 1];
        } else if i - at - 1 > |d| {
          assert rest[i - at - 1] == e[i - at - 2 - |d|];
        }
      }
    }
  }

  // ------------------------------------------------------------------
  // isValidPassword, sanitizeTaskTitle, sanitizeTaskDescription
  // ------------------------------------------------------------------

  /** `password.length >= 8`. */
  predicate IsValidPassword(password: string) {
    |password| >= MinPasswordLength
  }

  /** `s.slice(0, n)` for a non-negative `n`: the first `n` characters, or all of `s`. */
  function Slice(s: string, n: nat): string {
    if |s| <= n then s else s[..n]
  }

  /** `title.trim().slice(0, 200)`. */
  function SanitizeTaskTitle(title: string): (r: string)
    ensures |r| <= MaxTitleLength && r <= Trim(title)
    ensures |r| == if |Trim(title)| <= MaxTitleLength then |Trim(title)| else MaxTitleLength
    ensures |Trim(title)| <= MaxTitleLength ==> r == Trim(title)
    ensures Trim(title) != [] <==> r != []
  {
    Slice(Trim(title), MaxTitleLength)
  }

  /** `description.trim().slice(0, 1000)`. */
  function SanitizeTaskDescription(description: string): (r: string)
    ensures |r| <= MaxDescriptionLength && r <= Trim(description)
    ensures |r| == if |Trim(description)| <= MaxDescriptionLength then |Trim(description)| else MaxDescriptionLength
    ensures |Trim(description)| <= MaxDescriptionLength ==> r == Trim(description)
    ensures Trim(description) != [] <==> r != []
  {
    Slice(Trim(description), MaxDescriptionLength)
  }

  /**
   * A sanitised title never starts with white space, but one that was cut at 200 characters
   * may end with it, so sanitising is not idempotent: the title below loses its last
   * character when sanitised a second time.
   */
  lemma SanitizedTitleMayEndInBlank()
    ensures var t := seq(199, i => 'a') + " b";
            var once := SanitizeTaskTitle(t);
            |once| == MaxTitleLength && once[MaxTitleLength - 1] == ' '
            && SanitizeTaskTitle(once) != once
  {
    var t := seq(199, i => 'a') + " b";
    assert TrimStart(t) == t;
    assert TrimEnd(t) == t;
    var once := SanitizeTaskTitle(t);
    assert once == t[..200];
    assert once[199] == ' ';
    var shorter := once[..199];
    assert once == shorter + " ";
    assert TrimEnd(once) == TrimEnd(shorter);
    assert |Trim(once)| <= 199;
  }
}
