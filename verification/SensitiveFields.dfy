/** The names of sensitive fields. */
module SensitiveFields {

  const AUTHENTICATION: set<string> := {
    "password", "passwd", "pwd", "secret", "token", "access_token", "refresh_token", "auth_token",
    "api_key", "apikey", "api_secret", "secret_key", "private_key", "privatekey"
  }

  const PERSONAL: set<string> := {
    "ssn", "social_security_number", "credit_card", "creditcard", "card_number", "cvv", "cvc"
  }

  const COMMON: set<string> := {
    "authorization", "bearer", "credential", "session_id", "sessionid", "cookie"
  }

  const STORAGE: set<string> := {
    "connection_string", "conn_string", "db_password", "database_password",
    "encryption_key", "decrypt_key", "aes_key", "rsa_key"
  }

  const NAMES := AUTHENTICATION + PERSONAL + COMMON + STORAGE

  function NormalChar(c: char): char {
    if 'A' <= c <= 'Z' then c - 'A' + 'a'
    else if c == '-' || c == ' ' then '_'
    else c
  }

  function Normalized(name: string): string {
    seq(|name|, i requires 0 <= i < |name| => NormalChar(name[i]))
  }

  predicate IsSensitiveField(name: string) {
    Normalized(name) in NAMES
  }

  /** `s` spells the listed name `name`: letters of either case, and `-` or a space for
      `_`. */
  predicate Spells(s: string, name: string) {
    |s| == |name| && forall i | 0 <= i < |s| ::
      || s[i] == name[i]
      || ('A' <= s[i] <= 'Z' && s[i] as int - 'A' as int == name[i] as int - 'a' as int)
      || (s[i] in "- " && name[i] == '_')
  }

  predicate Canonical(name: string) {
    && (forall c <- name :: 'a' <= c <= 'z' || c == '_')
    && name != "" && name[0] != '_'
  }

  lemma AuthenticationIsCanonical(name: string)
    ensures name in AUTHENTICATION ==> Canonical(name)
  {
  }

  lemma PersonalIsCanonical(name: string)
    ensures name in PERSONAL + COMMON ==> Canonical(name)
  {
  }

  lemma StorageIsCanonical(name: string)
    ensures name in STORAGE ==> Canonical(name)
  {
  }

  lemma NamesAreCanonical(name: string)
    ensures name in NAMES ==> Canonical(name)
  {
    AuthenticationIsCanonical(name);
    PersonalIsCanonical(name);
    StorageIsCanonical(name);
  }

  lemma SpellingNormalizes(s: string, name: string)
    requires Canonical(name)
    ensures Spells(s, name) <==> Normalized(s) == name
  {
    if Spells(s, name) {
      forall i | 0 <= i < |s| ensures Normalized(s)[i] == name[i] {
        assert name[i] in name;
      }
    }
  }

  /** A field is sensitive exactly when its name spells a listed one. */
  lemma SensitiveIsSpelling(s: string)
    ensures IsSensitiveField(s) <==> exists name <- NAMES :: Spells(s, name)
  {
    if IsSensitiveField(s) {
      NamesAreCanonical(Normalized(s));
      SpellingNormalizes(s, Normalized(s));
    }
    if name :| name in NAMES && Spells(s, name) {
      NamesAreCanonical(name);
      SpellingNormalizes(s, name);
    }
  }

  /** The field the redaction itself adds is not sensitive. */
  lemma CutMarkIsNotSensitive()
    ensures !IsSensitiveField("_truncated")
  {
    var name := Normalized("_truncated");
    assert name[0] == '_';
    NamesAreCanonical(name);
  }
}
