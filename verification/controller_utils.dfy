/** The account helpers: the password rule, password hashing, one-time
    passwords and the naming of stored profile images. Hashing, randomness,
    the clock and cloud storage are parameters. */
module ControllerUtils {
  import opened Wrappers
  import opened Text
  import opened Accounts

  // ---------------------------------------------------------------------
  // validatePassword

  /** The character class `[\w@$!%*#?&.+-=]`, where `+-=` is the range from
      `+` to `=`. */
  predicate PasswordChar(c: char) {
    IsWordChar(c) || c in "@$!%*#?&." || ('+' <= c <= '=')
  }

  /** The accepted characters, listed one by one: letters, digits, `_`,
      the nine symbols and the twelve characters of the range `+`..`=`,
      so `,`, `/`, `:`, `;` and `<` are accepted and a space is not. */
  lemma PasswordCharListed(c: char)
    ensures PasswordChar(c) <==>
      IsAsciiLetter(c) || IsDigit(c) || c in "_@$!%*#?&.+,-/:;<="
  {
  }

  /** What `/^(?=.*[a-zA-Z])(?=.*[0-9])[\w@$!%*#?&.+-=]{8,20}$/` accepts:
      8 to 20 characters of the class, at least one ASCII letter and at
      least one digit. */
  predicate PasswordOk(p: string) {
    && 8 <= |p| <= 20
    && (forall i | 0 <= i < |p| :: PasswordChar(p[i]))
    && (exists i | 0 <= i < |p| :: IsAsciiLetter(p[i]))
    && (exists i | 0 <= i < |p| :: IsDigit(p[i]))
  }

  /** `validatePassword`, as one left-to-right scan. */
  method ValidatePassword(password: string) returns (ok: bool)
    ensures ok <==> PasswordOk(password)
    ensures ok ==> 8 <= |password| <= 20
  {
    if |password| < 8 || |password| > 20 {
      return false;
    }
    var letter, digit := false, false;
    var i := 0;
    while i < |password|
      invariant 0 <= i <= |password|
      invariant forall j | 0 <= j < i :: PasswordChar(password[j])
      invariant letter <==> exists j | 0 <= j < i :: IsAsciiLetter(password[j])
      invariant digit <==> exists j | 0 <= j < i :: IsDigit(password[j])
    {
      if !PasswordChar(password[i]) {
        return false;
      }
      letter := letter || IsAsciiLetter(password[i]);
      digit := digit || IsDigit(password[i]);
      i := i + 1;
    }
    ok := letter && digit;
  }

  /** A password with a space is rejected whatever else it holds. */
  lemma SpaceRejected(p: string, i: nat)
    requires i < |p| && p[i] == ' '
    ensures !PasswordOk(p)
  {
  }

  // ---------------------------------------------------------------------
  // hashPassword

  /** `hashPassword`: a falsy password (undefined or empty) is returned
      unchanged; any other is replaced by its hash. */
  function HashPassword(password: Option<string>, hash: string -> string): (r: Option<string>)
    ensures !Present(password) ==> r == password
    ensures Present(password) ==> r == Some(hash(password.value))
  {
    if Present(password) then Some(hash(password.value)) else password
  }

  // ---------------------------------------------------------------------
  // generateSecureOTP

  /** Fifteen minutes in milliseconds. */
  const OtpLifetimeMs := 15 * 60000

  /** `generateSecureOTP(random.length)` given the random words it draws
      and the current time: one decimal digit per word, the word modulo 10,
      valid for fifteen minutes. */
  method GenerateSecureOtp(random: seq<nat>, now: int) returns (otp: string, expiresAt: int)
    ensures |otp| == |random|
    ensures forall i | 0 <= i < |random| :: IsDigit(otp[i]) && DigitValue(otp[i]) == random[i] % 10
    ensures expiresAt == now + 900000
  {
    otp := "";
    expiresAt := now + OtpLifetimeMs;
    var i := 0;
    while i < |random|
      invariant 0 <= i <= |random|
      invariant |otp| == i
      invariant forall j | 0 <= j < i :: IsDigit(otp[j]) && DigitValue(otp[j]) == random[j] % 10
    {
      otp := otp + [DigitChar(random[i] % 10)];
      i := i + 1;
    }
  }

  // ---------------------------------------------------------------------
  // replaceProfileImage

  /** What `replaceProfileImage` asks cloud storage to do. */
  datatype StorageOp = Delete(file: string) | Save(file: string, contentType: string)

  /** The requested image: the default image, or an upload with its MIME
      type. */
  datatype NewImage = DefaultImage | Upload(mimetype: string)

  /** The last piece of a split. */
  function LastPiece(s: string, sep: char): string {
    var parts := Split(s, sep);
    parts[|parts| - 1]
  }

  /** A split yields one piece exactly when the separator does not occur;
      that piece is then the whole string. */
  lemma {:induction false} SinglePieceIffNoSep(s: string, sep: char)
    ensures |Split(s, sep)| == 1 <==> sep !in s
    ensures sep !in s ==> Split(s, sep) == [s]
    decreases |s|
  {
    if s != [] {
      SinglePieceIffNoSep(s[1..], sep);
      assert s == [s[0]] + s[1..];
    }
  }

  /** The last piece of a split is the longest separator-free suffix: it
      ends the string and is either all of it or preceded by a separator. */
  lemma {:induction false} LastPieceIsSuffix(s: string, sep: char)
    ensures var r := LastPiece(s, sep);
      && sep !in r
      && |r| <= |s| && r == s[|s| - |r|..]
      && (|r| < |s| ==> s[|s| - |r| - 1] == sep)
    decreases |s|
  {
    if s != [] {
      var t := s[1..];
      var q := LastPiece(t, sep);
      assert sep !in q && |q| <= |t| && q == t[|t| - |q|..] && (|q| < |t| ==> t[|t| - |q| - 1] == sep) by {
        LastPieceIsSuffix(t, sep);
      }
      SinglePieceIffNoSep(t, sep);
      if s[0] == sep || |Split(t, sep)| > 1 {
        LastPieceOfTail(s, sep);
        assert |Split(t, sep)| > 1 ==> |q| < |t|;
        TailSlice(s, |t| - |q|);
      } else {
        LastPieceWhole(s, sep);
      }
    }
  }

  /** Past a separator, or with one still to come, the last piece is the
      tail's last piece. */
  lemma LastPieceOfTail(s: string, sep: char)
    requires s != [] && (s[0] == sep || |Split(s[1..], sep)| > 1)
    ensures LastPiece(s, sep) == LastPiece(s[1..], sep)
  {
    var rest := Split(s[1..], sep);
    assert Split(s, sep)[|Split(s, sep)| - 1] == rest[|rest| - 1];
  }

  /** With no separator after the first character, and none there, the
      last piece is the whole string. */
  lemma LastPieceWhole(s: string, sep: char)
    requires s != [] && s[0] != sep && |Split(s[1..], sep)| == 1 && Split(s[1..], sep) == [s[1..]]
    ensures LastPiece(s, sep) == s
  {
    var t := s[1..];
    assert Split(s, sep)[|Split(s, sep)| - 1] == [s[0]] + t;
    assert s == [s[0]] + t;
  }

  /** Slices of `s[1..]` are slices of `s` shifted by one. */
  lemma TailSlice<T>(s: seq<T>, k: nat)
    requires k < |s|
    ensures s[1..][k..] == s[k + 1..]
    ensures k > 0 ==> s[1..][k - 1] == s[k]
  {
  }

  /** `getImageSignedUrl`: no URL for the default image, otherwise the
      storage's signed read URL for the file `<id>.<image>`; signing is a
      parameter. */
  function ImageSignedUrl(user: User, defaultImage: string, sign: string -> string): string {
    if user.profileImage == defaultImage then "" else sign(user.id + "." + user.profileImage)
  }

  /** `replaceProfileImage`: the old file `<id>.<image>` is deleted unless
      the current image is the default one; a default request answers the
      default image; an upload is saved as `<id>.<extension>` and answers
      the extension, the segment of the MIME type after its last `/`. */
  function ReplaceProfileImage(user: User, newImage: NewImage, defaultImage: string): (r: (seq<StorageOp>, string))
    ensures Delete(user.id + "." + user.profileImage) in r.0 <==> user.profileImage != defaultImage
    ensures newImage.DefaultImage? ==> r.1 == defaultImage && |r.0| <= 1
    ensures newImage.Upload? ==>
      && '/' !in r.1
      && |r.1| <= |newImage.mimetype| && r.1 == newImage.mimetype[|newImage.mimetype| - |r.1|..]
      && (|r.1| < |newImage.mimetype| ==> newImage.mimetype[|newImage.mimetype| - |r.1| - 1] == '/')
      && r.0 != [] && r.0[|r.0| - 1] == Save(user.id + "." + r.1, newImage.mimetype)
    ensures var deletes := if user.profileImage != defaultImage then [Delete(user.id + "." + user.profileImage)] else [];
      && (newImage.DefaultImage? ==> r.0 == deletes)
      && (newImage.Upload? ==> r.0 == deletes + [Save(user.id + "." + r.1, newImage.mimetype)])
  {
    var deletes := if user.profileImage != defaultImage then [Delete(user.id + "." + user.profileImage)] else [];
    match newImage
    case DefaultImage => (deletes, defaultImage)
    case Upload(mimetype) =>
      var extension := LastPiece(mimetype, '/');
      LastPieceIsSuffix(mimetype, '/');
      (deletes + [Save(user.id + "." + extension, mimetype)], extension)
  }
}
