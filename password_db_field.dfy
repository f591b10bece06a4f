// A password field (PasswordDBField): the password kept as a traditional
// crypt() hash, an md5crypt() hash and/or plaintext, which of them the field
// stores and writes to disk, the salts a client needs to submit pre-hashed
// text, and the checks on a submitted plaintext.
module PasswordFields {
  import opened Wrappers
  import opened JavaLang
  import DBField

  /** The password options of the field's definition (DBObjectBaseField). */
  datatype Definition = Definition(
    crypted: bool,
    md5Crypted: bool,
    plainText: bool,
    okChars: Option<string>,
    badChars: Option<string>,
    minSize: int,
    maxSize: int)

  /** The three stored forms: crypt() text, md5crypt() text and plaintext; None is null. */
  datatype Passwords = Passwords(crypt: Option<string>, md5: Option<string>, plain: Option<string>)

  const Cleared := Passwords(None, None, None)

  /** The md5crypt() magic prefix. */
  const Magic := "$1$"

  /** The setters store null for both null and "". */
  function NonEmpty(text: Option<string>): (r: Option<string>)
    ensures r.None? <==> text.None? || text == Some("")
    ensures r.Some? ==> r == text
  {
    if text == Some("") then None else text
  }

  // ---------------------------------------------------------------- disk format

  /** writeUTF of a form that may be null: null is written as "". */
  function OrEmpty(o: Option<string>): (s: string)
    ensures NonEmpty(Some(s)) == NonEmpty(o)
  {
    if o.Some? then o.value else ""
  }

  /**
   * emit: the crypt text if the field is crypted, the md5crypt text if it is
   * md5crypted, and the plaintext only if it is neither.
   */
  function Encode(p: Passwords, def: Definition): seq<string> {
    (if def.crypted then [OrEmpty(p.crypt)] else [])
    + (if def.md5Crypted then [OrEmpty(p.md5)] else [])
    + (if !def.crypted && !def.md5Crypted then [OrEmpty(p.plain)] else [])
  }

  /** A field that keeps a hash never lets its plaintext reach the disk. */
  lemma EncodeHidesPlaintext(p: Passwords, q: Passwords, def: Definition)
    requires def.crypted || def.md5Crypted
    requires p.crypt == q.crypt && p.md5 == q.md5
    ensures Encode(p, def) == Encode(q, def)
  {
  }

  /** DataInput.readUTF: the next string of the stream, or EOFException. */
  function ReadUTF(input: seq<string>): (r: Outcome<(string, seq<string>)>)
    ensures r.Returned? <==> |input| > 0
    ensures r.Returned? ==> r.value.0 == input[0] && r.value.1 == input[1..]
    ensures r.Threw? ==> r.exc == EndOfFile
  {
    if |input| == 0 then Threw(EndOfFile) else Returned((input[0], input[1..]))
  }

  /** The file versions whose password records emit writes. */
  predicate CurrentFormat(major: int, minor: int) {
    major >= 1 && !(major == 1 && minor == 10) && !(major == 1 && 13 <= minor < 16)
  }

  /**
   * receive, for a file of version major.minor: 1.10 files hold crypt text
   * and plaintext; later files hold what emit writes, with an extra old-style
   * md5 entry after the crypt text in versions 1.13 to 1.15.  Forms the
   * record does not hold keep their prior value.
   */
  function Decode(prior: Passwords, major: int, minor: int, def: Definition, input: seq<string>)
    : Outcome<(Passwords, seq<string>)>
  {
    if major == 1 && minor == 10 then
      var c :- ReadUTF(input);
      var u :- ReadUTF(c.1);
      Returned((Passwords(NonEmpty(Some(c.0)), prior.md5, NonEmpty(Some(u.0))), u.1))
    else
      var afterCrypt :- DecodeCrypt(prior, major, minor, def, input);
      var afterMD5 :- DecodeMD5(afterCrypt.0, major, minor, def, afterCrypt.1);
      DecodePlain(afterMD5.0, def, afterMD5.1)
  }

  function DecodeCrypt(p: Passwords, major: int, minor: int, def: Definition, input: seq<string>)
    : Outcome<(Passwords, seq<string>)>
  {
    if !def.crypted then Returned((p, input))
    else
      var c :- ReadUTF(input);
      var q := p.(crypt := NonEmpty(Some(c.0)));
      if major == 1 && 13 <= minor < 16 then
        var old5 :- ReadUTF(c.1);
        Returned((q, old5.1))
      else Returned((q, c.1))
  }

  function DecodeMD5(p: Passwords, major: int, minor: int, def: Definition, input: seq<string>)
    : Outcome<(Passwords, seq<string>)>
  {
    if !(major >= 1 || minor >= 16) then Returned((p, input))
    else if !def.md5Crypted then Returned((p.(md5 := None), input))
    else
      var m :- ReadUTF(input);
      Returned((p.(md5 := NonEmpty(Some(m.0))), m.1))
  }

  function DecodePlain(p: Passwords, def: Definition, input: seq<string>): Outcome<(Passwords, seq<string>)> {
    if def.crypted || def.md5Crypted then Returned((p.(plain := None), input))
    else
      var u :- ReadUTF(input);
      Returned((Passwords(None, None, NonEmpty(Some(u.0))), u.1))
  }

  /** What a field keeps across a dump and reload: the hashes it stores, or else its plaintext. */
  function Stored(p: Passwords, def: Definition): Passwords {
    if def.crypted || def.md5Crypted then
      Passwords(if def.crypted then NonEmpty(p.crypt) else None, if def.md5Crypted then NonEmpty(p.md5) else None, None)
    else
      Passwords(None, None, NonEmpty(p.plain))
  }

  /** Reading back what emit wrote gives the stored forms and consumes exactly the record. */
  lemma RoundTrip(p: Passwords, major: int, minor: int, def: Definition, rest: seq<string>)
    requires CurrentFormat(major, minor)
    ensures Decode(Cleared, major, minor, def, Encode(p, def) + rest) == Returned((Stored(p, def), rest))
  {
    var a := if def.crypted then [OrEmpty(p.crypt)] else [];
    var b := if def.md5Crypted then [OrEmpty(p.md5)] else [];
    var c := if !def.crypted && !def.md5Crypted then [OrEmpty(p.plain)] else [];
    assert Encode(p, def) + rest == a + (b + (c + rest));
    var afterCrypt := CryptRead(p, major, minor, def, b + (c + rest));
    var afterMD5 := MD5Read(p, afterCrypt, major, minor, def, c + rest);
    if !def.crypted && !def.md5Crypted {
      assert (c + rest)[1..] == rest;
      assert ReadUTF(c + rest) == Returned((OrEmpty(p.plain), rest));
      assert NonEmpty(Some(OrEmpty(p.plain))) == NonEmpty(p.plain);
    }
  }

  /** The crypt step of reading back emit's record. */
  lemma CryptRead(p: Passwords, major: int, minor: int, def: Definition, x: seq<string>) returns (q: Passwords)
    requires CurrentFormat(major, minor)
    ensures q == Cleared.(crypt := if def.crypted then NonEmpty(p.crypt) else None)
    ensures DecodeCrypt(Cleared, major, minor, def, (if def.crypted then [OrEmpty(p.crypt)] else []) + x) == Returned((q, x))
  {
    q := Cleared.(crypt := if def.crypted then NonEmpty(p.crypt) else None);
    if def.crypted {
      var input := [OrEmpty(p.crypt)] + x;
      assert input[1..] == x;
      assert ReadUTF(input) == Returned((OrEmpty(p.crypt), x));
    } else {
      assert [] + x == x;
    }
  }

  /** The md5crypt step of reading back emit's record. */
  lemma MD5Read(p: Passwords, q: Passwords, major: int, minor: int, def: Definition, x: seq<string>) returns (q': Passwords)
    requires CurrentFormat(major, minor)
    ensures q' == q.(md5 := if def.md5Crypted then NonEmpty(p.md5) else None)
    ensures DecodeMD5(q, major, minor, def, (if def.md5Crypted then [OrEmpty(p.md5)] else []) + x) == Returned((q', x))
  {
    q' := q.(md5 := if def.md5Crypted then NonEmpty(p.md5) else None);
    if def.md5Crypted {
      var input := [OrEmpty(p.md5)] + x;
      assert input[1..] == x;
      assert ReadUTF(input) == Returned((OrEmpty(p.md5), x));
    } else {
      assert [] + x == x;
    }
  }

  // ---------------------------------------------------------------- salts

  /**
   * The md5crypt() salt rule of getMD5Salt and matchMD5CryptText: drop the
   * "$1$" magic, stop at the first '$', keep at most 8 characters.
   */
  function MD5Salt(s: string): (salt: string)
    ensures |salt| <= 8 && '$' !in salt
    ensures StartsWith(if StartsWith(s, Magic) then s[|Magic|..] else s, salt)
  {
    var body := if StartsWith(s, Magic) then s[|Magic|..] else s;
    var i := IndexOf(body, '$');
    var cut := if i != -1 then body[..i] else body;
    if |cut| > 8 then cut[..8] else cut
  }

  /** The salt of a hash in md5crypt() format "$1$salt$hash" is its salt part. */
  lemma MD5SaltOfHash(salt: string, hash: string)
    requires |salt| <= 8 && '$' !in salt
    ensures MD5Salt(Magic + salt + "$" + hash) == salt
  {
    var s := Magic + salt + "$" + hash;
    assert s[..|Magic|] == Magic;
    var body := s[|Magic|..];
    assert body == salt + "$" + hash;
    assert body[|salt|] == '$';
    assert body[..|salt|] == salt;
  }

  /** An md5crypted field takes text in md5crypt() format: "$1$", then a '$' later on. */
  predicate WellFormedMD5(text: Option<string>) {
    text.None? || (StartsWith(text.value, Magic) && IndexOfFrom(text.value, '$', 3) != -1)
  }

  /** allowed(c): c is in the allowed set if there is one, and not in the disallowed set if there is one. */
  function Allowed(def: Definition, c: char): (r: bool)
    ensures !r <==> (def.okChars.Some? && c !in def.okChars.value) || (def.badChars.Some? && c in def.badChars.value)
  {
    !(def.okChars.Some? && IndexOf(def.okChars.value, c) == -1)
    && !(def.badChars.Some? && IndexOf(def.badChars.value, c) != -1)
  }

  // ---------------------------------------------------------------- submitted plaintext

  /** Why verifyNewValue refuses a submitted password, or that it accepts it. */
  datatype Verdict = Accepted | NoPermission | NotAString | TooLong | TooShort | BadChar(c: char) | OwnerRefused

  /** The first character of s that is not among chars. */
  function FirstOutside(s: string, chars: string): (r: Option<char>)
    ensures r.None? <==> forall i :: 0 <= i < |s| ==> s[i] in chars
    ensures r.Some? ==> r.value in s && r.value !in chars
  {
    if |s| == 0 then None
    else if s[0] !in chars then Some(s[0])
    else FirstOutside(s[1..], chars)
  }

  /** The first character of s that is among chars. */
  function FirstInside(s: string, chars: string): (r: Option<char>)
    ensures r.None? <==> forall i :: 0 <= i < |s| ==> s[i] !in chars
    ensures r.Some? ==> r.value in s && r.value in chars
  {
    if |s| == 0 then None
    else if s[0] in chars then Some(s[0])
    else FirstInside(s[1..], chars)
  }

  /**
   * verifyNewValue: permission first, then the type, then null is fine,
   * then the length limits, the allowed and the disallowed characters, and
   * last the owning object's own check.
   */
  function Check(def: Definition, editable: bool, o: DBField.Value, ownerOk: string -> bool): Verdict {
    if !editable then NoPermission
    else if !(o.Null? || o.Text?) then NotAString
    else if o.Null? then Accepted
    else if |o.s| > def.maxSize then TooLong
    else if |o.s| < def.minSize then TooShort
    else if def.okChars.Some? && FirstOutside(o.s, def.okChars.value).Some? then
      BadChar(FirstOutside(o.s, def.okChars.value).value)
    else if def.badChars.Some? && FirstInside(o.s, def.badChars.value).Some? then
      BadChar(FirstInside(o.s, def.badChars.value).value)
    else if !ownerOk(o.s) then OwnerRefused
    else Accepted
  }

  /** A submission is accepted exactly when it is null, or a string of allowed length and characters the owner accepts. */
  lemma CheckAccepts(def: Definition, editable: bool, o: DBField.Value, ownerOk: string -> bool)
    ensures Check(def, editable, o, ownerOk) == Accepted <==>
      editable && (o.Null? || (o.Text? && def.minSize <= |o.s| <= def.maxSize &&
        (forall i :: 0 <= i < |o.s| ==> Allowed(def, o.s[i])) && ownerOk(o.s)))
  {
    if editable && o.Text? && def.minSize <= |o.s| <= def.maxSize {
      if forall i :: 0 <= i < |o.s| ==> Allowed(def, o.s[i]) {
        assert def.okChars.Some? ==> FirstOutside(o.s, def.okChars.value).None?;
        assert def.badChars.Some? ==> FirstInside(o.s, def.badChars.value).None?;
      } else {
        var i :| 0 <= i < |o.s| && !Allowed(def, o.s[i]);
        assert def.okChars.Some? && o.s[i] !in def.okChars.value ==> FirstOutside(o.s, def.okChars.value).Some?;
      }
    }
  }

  /** A rejected character is one that allowed() refuses. */
  lemma CheckNamesBadChar(def: Definition, editable: bool, o: DBField.Value, ownerOk: string -> bool)
    requires Check(def, editable, o, ownerOk).BadChar?
    ensures o.Text? && Check(def, editable, o, ownerOk).c in o.s
    ensures !Allowed(def, Check(def, editable, o, ownerOk).c)
  {
  }

  function AsValue(text: Option<string>): (v: DBField.Value)
    ensures v.Null? <==> text.None?
    ensures text.Some? ==> v == DBField.Text(text.value)
  {
    if text.None? then DBField.Null else DBField.Text(text.value)
  }

  // ---------------------------------------------------------------- the field

  class PasswordField {
    const definition: Definition
    var cryptedPass: Option<string>
    var md5CryptPass: Option<string>
    var uncryptedPass: Option<string>

    function State(): Passwords
      reads this
    {
      Passwords(cryptedPass, md5CryptPass, uncryptedPass)
    }

    /** isDefined: some form of the password is held. */
    predicate IsDefined()
      reads this
    {
      cryptedPass != None || md5CryptPass != None || uncryptedPass != None
    }

    /** The no-value constructor: an undefined placeholder. */
    constructor (def: Definition)
      ensures definition == def && State() == Cleared && !IsDefined()
    {
      definition := def;
      cryptedPass := None;
      md5CryptPass := None;
      uncryptedPass := None;
    }

    /** The receive constructor: a fresh field filled from the stream. */
    static method Receive(def: Definition, major: int, minor: int, input: seq<string>) returns (r: Outcome<PasswordField>)
      ensures r.Returned? <==> Decode(Cleared, major, minor, def, input).Returned?
      ensures r.Threw? ==> r.exc == EndOfFile
      ensures r.Returned? ==>
        fresh(r.value) && r.value.definition == def &&
        r.value.State() == Decode(Cleared, major, minor, def, input).value.0
    {
      var decoded := Decode(Cleared, major, minor, def, input);
      if decoded.Threw? {
        DecodeFailsAtEnd(Cleared, major, minor, def, input);
        return Threw(decoded.exc);
      }
      var field := new PasswordField(def);
      field.cryptedPass := decoded.value.0.crypt;
      field.md5CryptPass := decoded.value.0.md5;
      field.uncryptedPass := decoded.value.0.plain;
      r := Returned(field);
    }

    /** getSalt: the first two characters of the crypt text of a crypted field, else null. */
    function GetSalt(): (r: Outcome<Option<string>>)
      reads this
      ensures r.Threw? <==> definition.crypted && cryptedPass.Some? && |cryptedPass.value| < 2
      ensures r.Threw? ==> r.exc == StringIndexOutOfBounds
      ensures r.Returned? ==> (r.value.Some? <==> definition.crypted && cryptedPass.Some?)
      ensures r.Returned? && r.value.Some? ==> |r.value.value| == 2 && StartsWith(cryptedPass.value, r.value.value)
    {
      if definition.crypted && cryptedPass.Some? then
        var salt :- Substring(cryptedPass.value, 0, 2);
        Returned(Some(salt))
      else Returned(None)
    }

    /**
     * matchCryptText: false without crypt text; a submission that does not
     * start with the stored salt is an IllegalArgumentException; otherwise
     * the submission must equal the stored text.
     */
    function MatchCryptText(text: Option<string>): (r: Outcome<bool>)
      reads this
      ensures !definition.crypted || cryptedPass.None? ==> r == Returned(false)
      ensures definition.crypted && cryptedPass.Some? && |cryptedPass.value| >= 2 ==>
        var salt := cryptedPass.value[..2];
        (text.None? ==> r == Threw(NullPointer)) &&
        (text.Some? && !StartsWith(text.value, salt) ==> r == Threw(IllegalArgument)) &&
        (text.Some? && StartsWith(text.value, salt) ==> r == Returned(text.value == cryptedPass.value))
    {
      if !definition.crypted || cryptedPass.None? then Returned(false)
      else
        var salt :- GetSalt();
        if text.None? then Threw(NullPointer)
        else if !StartsWith(text.value, salt.value) then Threw(IllegalArgument)
        else Returned(text.value == cryptedPass.value)
    }

    /** getMD5Salt: the salt rule applied to the md5crypt text of an md5crypted field, else null. */
    function GetMD5Salt(): (r: Option<string>)
      reads this
      ensures r.Some? <==> definition.md5Crypted && md5CryptPass.Some?
      ensures r.Some? ==> r.value == MD5Salt(md5CryptPass.value)
    {
      if definition.md5Crypted && md5CryptPass.Some? then Some(MD5Salt(md5CryptPass.value)) else None
    }

    /**
     * matchMD5CryptText: a submission whose salt, by the same rule, differs
     * from the stored salt (or when there is none) is an
     * IllegalArgumentException; otherwise it must equal the stored text.
     */
    function MatchMD5CryptText(text: Option<string>): (r: Outcome<bool>)
      reads this
      ensures text.None? ==> r == Threw(NullPointer)
      ensures text.Some? && GetMD5Salt() != Some(MD5Salt(text.value)) ==> r == Threw(IllegalArgument)
      ensures text.Some? && GetMD5Salt() == Some(MD5Salt(text.value)) ==>
        md5CryptPass.Some? && r == Returned(md5CryptPass == text)
    {
      if text.None? then Threw(NullPointer)
      else
        var salt := MD5Salt(text.value);
        if GetMD5Salt() != Some(salt) then Threw(IllegalArgument)
        // equal to the stored text if there is one, else false
        else Returned(md5CryptPass == text)
    }

    /** verifyNewValue, with its two character scans. */
    method VerifyNewValue(o: DBField.Value, editable: bool, ownerOk: string -> bool) returns (v: Verdict)
      ensures v == Check(definition, editable, o, ownerOk)
    {
      if !editable {
        return NoPermission;
      }
      if !(o.Null? || o.Text?) {
        return NotAString;
      }
      if o.Null? {
        return Accepted;
      }
      var s := o.s;
      if |s| > definition.maxSize {
        return TooLong;
      }
      if |s| < definition.minSize {
        return TooShort;
      }
      if definition.okChars.Some? {
        var okChars := definition.okChars.value;
        var i := 0;
        while i < |s|
          invariant 0 <= i <= |s|
          invariant FirstOutside(s, okChars) == FirstOutside(s[i..], okChars)
        {
          if IndexOf(okChars, s[i]) == -1 {
            return BadChar(s[i]);
          }
          assert s[i..][1..] == s[i + 1..];
          i := i + 1;
        }
      }
      if definition.badChars.Some? {
        var badChars := definition.badChars.value;
        var i := 0;
        while i < |s|
          invariant 0 <= i <= |s|
          invariant FirstInside(s, badChars) == FirstInside(s[i..], badChars)
        {
          if IndexOf(badChars, s[i]) != -1 {
            return BadChar(s[i]);
          }
          assert s[i..][1..] == s[i + 1..];
          i := i + 1;
        }
      }
      if !ownerOk(s) {
        return OwnerRefused;
      }
      v := Accepted;
    }

    /**
     * setPlainTextPass: refused unless verifyNewValue and the owner's
     * finalizeSetValue accept; null clears every form; otherwise the field
     * stores fresh hashes of the kinds it is defined with and keeps the
     * plaintext.  cryptOut and md5Out stand for the hashes that
     * jcrypt.crypt and MD5Crypt.crypt compute with a fresh random salt.
     */
    method SetPlainTextPass(text: Option<string>, editable: bool, ownerOk: string -> bool, finalizeOk: bool,
                            cryptOut: string, md5Out: string) returns (r: Reply)
      modifies this
      ensures r == Done <==> Check(definition, editable, AsValue(text), ownerOk) == Accepted && finalizeOk
      ensures r == Refused ==> State() == old(State())
      ensures r == Done && text.None? ==> State() == Cleared && !IsDefined()
      ensures r == Done && text.Some? ==>
        State() == Passwords(if definition.crypted then Some(cryptOut) else None,
                             if definition.md5Crypted then Some(md5Out) else None,
                             text) && IsDefined()
    {
      var verdict := VerifyNewValue(AsValue(text), editable, ownerOk);
      if verdict != Accepted {
        return Refused;
      }
      if !finalizeOk {
        return Refused;
      }
      if text.None? {
        md5CryptPass := None;
        cryptedPass := None;
        uncryptedPass := None;
        return Done;
      }
      if definition.crypted {
        cryptedPass := Some(cryptOut);
      } else {
        cryptedPass := None;
      }
      if definition.md5Crypted {
        md5CryptPass := Some(md5Out);
      } else {
        md5CryptPass := None;
      }
      uncryptedPass := text;
      r := Done;
    }

    /**
     * setCryptPass: refused without permission, on a field that is not
     * crypted, or when the owner refuses; otherwise the crypt text is set
     * (null for null or "") and the other forms are lost.
     */
    method SetCryptPass(text: Option<string>, editable: bool, finalizeOk: bool) returns (r: Reply)
      modifies this
      ensures r == Done <==> editable && definition.crypted && finalizeOk
      ensures r == Refused ==> State() == old(State())
      ensures r == Done ==> State() == Passwords(NonEmpty(text), None, None)
    {
      if !editable || !definition.crypted || !finalizeOk {
        return Refused;
      }
      if text.None? || text.value == "" {
        cryptedPass := None;
      } else {
        cryptedPass := text;
      }
      md5CryptPass := None;
      uncryptedPass := None;
      r := Done;
    }

    /**
     * setMD5CryptedPass: refused without permission, on a field that is not
     * md5crypted, for text not in md5crypt() format, or when the owner
     * refuses; otherwise the md5crypt text is set and the other forms are
     * lost.
     */
    method SetMD5CryptedPass(text: Option<string>, editable: bool, finalizeOk: bool) returns (r: Reply)
      modifies this
      ensures r == Done <==> editable && definition.md5Crypted && WellFormedMD5(text) && finalizeOk
      ensures r == Refused ==> State() == old(State())
      ensures r == Done ==> State() == Passwords(None, NonEmpty(text), None)
    {
      if !editable || !definition.md5Crypted {
        return Refused;
      }
      if text.Some? && (!StartsWith(text.value, Magic) || IndexOfFrom(text.value, '$', 3) == -1) {
        return Refused;
      }
      if !finalizeOk {
        return Refused;
      }
      if text.None? || text.value == "" {
        md5CryptPass := None;
      } else {
        md5CryptPass := text;
      }
      cryptedPass := None;
      uncryptedPass := None;
      r := Done;
    }
  }

  /** A decoding that fails has run out of input. */
  lemma DecodeFailsAtEnd(prior: Passwords, major: int, minor: int, def: Definition, input: seq<string>)
    requires Decode(prior, major, minor, def, input).Threw?
    ensures Decode(prior, major, minor, def, input).exc == EndOfFile
  {
  }

  /** The stored md5crypt text matches itself, and its salt is the one getMD5Salt reports. */
  lemma MatchMD5OwnHash(f: PasswordField)
    requires f.definition.md5Crypted && f.md5CryptPass.Some?
    ensures f.MatchMD5CryptText(f.md5CryptPass) == Returned(true)
  {
  }

  /** The stored crypt text matches itself. */
  lemma MatchCryptOwnHash(f: PasswordField)
    requires f.definition.crypted && f.cryptedPass.Some? && |f.cryptedPass.value| >= 2
    ensures f.MatchCryptText(f.cryptedPass) == Returned(true)
  {
    assert StartsWith(f.cryptedPass.value, f.cryptedPass.value[..2]);
  }
}
