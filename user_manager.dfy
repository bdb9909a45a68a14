/**
 * The data shaping inside `AppwriteUserManager`: the profile and
 * membership-card payloads built at registration, the "first document or
 * null" lookups, and the fail-closed admin check. The store calls themselves
 * are outside the model; their results come in as parameters.
 */
module UserManager {
  import opened Wrappers
  import opened JsStrings
  import opened Decimal
  import opened Documents

  /** The registration form as the caller passes it (the password only reaches the account call). */
  datatype Registration = Registration(
    email: Field,
    nome: Field,
    cognome: Field,
    telefono: Field,
    data_nascita: Field,
    luogo_nascita: Field)

  /** A user profile document as `createUserProfile` builds it. Timestamps are instants in ms. */
  datatype Profile = Profile(
    user_id: string,
    email: Field,
    full_name: string,
    cognome: string,
    telefono: string,
    role: string,
    data_nascita: string,
    luogo_nascita: string,
    created_at: int,
    updated_at: int)

  /** A membership card ("tessera") document as `createTessera` builds it. */
  datatype Tessera = Tessera(
    user_id: string,
    numero_tessera: string,
    nome_completo: string,
    email: Field,
    telefono: string,
    data_emissione: int,
    data_scadenza: int,
    stato: string,
    tipo: string,
    created_at: int)

  /** A failure reported by the document store, passed on unchanged. */
  datatype StoreError = StoreError(message: string)

  /** 365 days of 24 hours of 60 minutes of 60 seconds of 1000 ms. */
  const YearMillis: int := 365 * 24 * 60 * 60 * 1000

  /** The value of `Math.floor(Math.random() * 100000)`. */
  type RandomDraw = r: nat | r < 100000

  /** A registration field defaulted with `|| ''`: empty when the field is falsy, its text otherwise. */
  predicate DefaultedFrom(v: string, f: Field) {
    if Truthy(f) then f == Text(v) else v == ""
  }

  /** The template literal `${nome} ${cognome || ''}`, shared by the account name and the profile name. */
  function NameTemplate(d: Registration): string {
    Render(d.nome) + " " + OrEmpty(d.cognome)
  }

  /**
   * The display name given to the new account by `register`. It is NOT
   * trimmed: the separating space stays even when there is no surname.
   */
  function AccountName(d: Registration): (r: string)
    ensures |r| > |Render(d.nome)|
    ensures r[..|Render(d.nome)|] == Render(d.nome) && r[|Render(d.nome)|] == ' '
    ensures r[|Render(d.nome)| + 1..] == OrEmpty(d.cognome)
  {
    NameTemplate(d)
  }

  /**
   * The profile payload of `createUserProfile`. `createdAt` and `updatedAt`
   * are the two clock readings the source takes.
   */
  function CreateUserProfile(d: Registration, userId: string, createdAt: int, updatedAt: int): (p: Profile)
    ensures p.user_id == userId && p.email == d.email && p.role == "USER"
    ensures NoOuterWhitespace(p.full_name)
    ensures DefaultedFrom(p.cognome, d.cognome)
    ensures DefaultedFrom(p.telefono, d.telefono)
    ensures DefaultedFrom(p.data_nascita, d.data_nascita)
    ensures DefaultedFrom(p.luogo_nascita, d.luogo_nascita)
    ensures p.created_at == createdAt && p.updated_at == updatedAt
  {
    Profile(
      user_id := userId,
      email := d.email,
      full_name := Trim(NameTemplate(d)),
      cognome := OrEmpty(d.cognome),
      telefono := OrEmpty(d.telefono),
      role := "USER",
      data_nascita := OrEmpty(d.data_nascita),
      luogo_nascita := OrEmpty(d.luogo_nascita),
      created_at := createdAt,
      updated_at := updatedAt)
  }

  /** The profile name is the account name with its outer whitespace removed. */
  lemma FullNameIsTrimmedAccountName(d: Registration, userId: string, createdAt: int, updatedAt: int)
    ensures CreateUserProfile(d, userId, createdAt, updatedAt).full_name == Trim(AccountName(d))
  {
  }

  /** Without a (non-empty) surname the profile name is just the trimmed first name. */
  lemma FullNameWithoutSurname(d: Registration, userId: string, createdAt: int, updatedAt: int)
    requires !Truthy(d.cognome)
    ensures CreateUserProfile(d, userId, createdAt, updatedAt).full_name == Trim(Render(d.nome))
  {
    assert NameTemplate(d) == Render(d.nome) + " ";
    TrimIgnoresTrailingWhitespace(Render(d.nome), " ");
  }

  /**
   * Without a surname the account name keeps a trailing space, so it never
   * equals the profile name, which has no outer whitespace.
   */
  lemma AccountNameDiffersWithoutSurname(d: Registration, userId: string, createdAt: int, updatedAt: int)
    requires !Truthy(d.cognome)
    ensures AccountName(d) == Render(d.nome) + " "
    ensures AccountName(d) != CreateUserProfile(d, userId, createdAt, updatedAt).full_name
  {
  }

  /** The card number `MA<year><random padded to 5 digits>`. */
  function CardNumber(year: nat, random: RandomDraw): (s: string)
    ensures |s| == 2 + |ToDecimal(year)| + 5
    ensures s[..2] == "MA"
    ensures s[2..|s| - 5] == ToDecimal(year)
    ensures AllDigits(s[2..])
  {
    var digits := ToDecimal(year);
    var suffix := PadStart(ToDecimal(random), 5, '0');
    SuffixIsFiveDigits(random);
    AllDigitsAppend(digits, suffix);
    ThreeParts("MA", digits, suffix);
    "MA" + digits + suffix
  }

  /** The three parts of a concatenation, read back by slicing. */
  lemma ThreeParts(p: string, m: string, x: string)
    ensures var s := p + m + x;
      && |s| == |p| + |m| + |x|
      && s[..|p|] == p
      && s[|p|..] == m + x
      && s[|p|..|s| - |x|] == m
      && s[|s| - |x|..] == x
  {
  }

  /** A draw below 100000 has at most five decimal digits. */
  lemma DrawHasAtMostFiveDigits(random: RandomDraw)
    ensures |ToDecimal(random)| <= 5
  {
    assert Pow10(5) == 100000;
    DigitsBelowPow10(random, 5);
  }

  /** A draw below 100000 pads to exactly five digits that parse back to the draw. */
  lemma SuffixIsFiveDigits(random: RandomDraw)
    ensures var suffix := PadStart(ToDecimal(random), 5, '0');
      |suffix| == 5 && AllDigits(suffix) && ParseDigits(suffix) == random
  {
    var dec := ToDecimal(random);
    DrawHasAtMostFiveDigits(random);
    ParseLeadingZeros(5 - |dec|, dec);
    ParseToDecimal(random);
    assert PadStart(dec, 5, '0') == Repeat('0', 5 - |dec|) + dec;
  }

  /** Reads the year and the random draw back out of a card number, if it has the card format. */
  function DecodeCardNumber(s: string): Option<(nat, nat)> {
    if |s| >= 8 && s[..2] == "MA" && AllDigits(s[2..]) then
      Some((ParseDigits(s[2..|s| - 5]), ParseDigits(s[|s| - 5..])))
    else None
  }

  /** The card number decodes back to the year and the random draw it was built from. */
  lemma CardNumberRoundTrip(year: nat, random: RandomDraw)
    ensures DecodeCardNumber(CardNumber(year, random)) == Some((year, random))
  {
    var digits := ToDecimal(year);
    var suffix := PadStart(ToDecimal(random), 5, '0');
    SuffixIsFiveDigits(random);
    ThreeParts("MA", digits, suffix);
    ParseToDecimal(year);
    var s := CardNumber(year, random);
    assert s == "MA" + digits + suffix;
    assert s[2..|s| - 5] == digits && s[|s| - 5..] == suffix;
  }

  /** For a four-digit year the card number is `MA`, four digits, five digits: eleven characters. */
  lemma CardNumberOfFourDigitYear(year: nat, random: RandomDraw)
    requires 1000 <= year <= 9999
    ensures |CardNumber(year, random)| == 11
  {
    DecimalLength(year);
    var k := |ToDecimal(year)|;
    if k < 4 {
      Pow10Monotone(k, 3);
    } else if k > 4 {
      Pow10Monotone(4, k - 1);
    }
  }

  /**
   * The membership-card payload of `createTessera`. `issuedAt` is the reading
   * stored as the issue date, `expiryClock` the `Date.now()` the expiry is
   * computed from, `createdAt` the reading stored as creation time.
   */
  function CreateTessera(
    userId: string, p: Profile, year: nat, random: RandomDraw,
    issuedAt: int, expiryClock: int, createdAt: int): (t: Tessera)
    ensures t.user_id == userId
    ensures t.nome_completo == p.full_name && t.email == p.email && t.telefono == p.telefono
    ensures t.numero_tessera == CardNumber(year, random)
    ensures DecodeCardNumber(t.numero_tessera) == Some((year, random))
    ensures t.data_emissione == issuedAt && t.data_scadenza == expiryClock + YearMillis
    ensures t.data_scadenza - t.data_emissione == YearMillis + (expiryClock - issuedAt)
    ensures t.stato == "ATTIVA" && t.tipo == "STANDARD"
    ensures t.created_at == createdAt
  {
    CardNumberRoundTrip(year, random);
    Tessera(
      user_id := userId,
      numero_tessera := CardNumber(year, random),
      nome_completo := p.full_name,
      email := p.email,
      telefono := p.telefono,
      data_emissione := issuedAt,
      data_scadenza := expiryClock + YearMillis,
      stato := "ATTIVA",
      tipo := "STANDARD",
      created_at := createdAt)
  }

  /** With a single clock reading the card expires exactly 31,536,000,000 ms after issue. */
  lemma ExpiryIsOneYearAfterIssue(userId: string, p: Profile, year: nat, random: RandomDraw, now: int)
    ensures var t := CreateTessera(userId, p, year, random, now, now, now);
      t.data_scadenza - t.data_emissione == 31_536_000_000
  {
  }

  /**
   * The card issued at registration carries the registration's data: the
   * trimmed name, the defaulted phone number, and the account's id.
   */
  lemma RegisteredCardCarriesProfile(
    d: Registration, userId: string, year: nat, random: RandomDraw, now: int)
    ensures var p := CreateUserProfile(d, userId, now, now);
      var t := CreateTessera(userId, p, year, random, now, now, now);
      && t.user_id == p.user_id
      && NoOuterWhitespace(t.nome_completo)
      && t.nome_completo == Trim(AccountName(d))
      && DefaultedFrom(t.telefono, d.telefono)
      && t.email == d.email
  {
  }

  /** `documents.length > 0 ? documents[0] : null`. */
  function FirstOrNull<T>(documents: seq<T>): (r: Option<T>)
    ensures r.None? <==> |documents| == 0
    ensures r.Some? ==> r.value == documents[0]
  {
    if |documents| > 0 then Some(documents[0]) else None
  }

  /**
   * `getUserProfile` / `getUserTessera` given the outcome of the store query:
   * a store failure is re-thrown unchanged, otherwise the first document or null.
   */
  function LookupFirst(response: Result<seq<Document>, StoreError>): (r: Result<Option<Document>, StoreError>)
    ensures response.Failure? ==> r == Failure(response.error)
    ensures response.Success? ==> r.Success? && r.value == FirstOrNull(response.value)
  {
    match response
    case Failure(e) => Failure(e)
    case Success(documents) => Success(FirstOrNull(documents))
  }

  /**
   * `isAdmin` given the outcome of the profile query. A failed query, no
   * profile, a missing or null role, and a role that is not a string (its
   * `toUpperCase` call throws and the error is caught) all give false.
   */
  function IsAdmin(response: Result<seq<Document>, StoreError>): (admin: bool)
    ensures response.Failure? ==> !admin
    ensures response.Success? && |response.value| == 0 ==> !admin
  {
    match LookupFirst(response)
    case Failure(_) => false
    case Success(None) => false
    case Success(Some(profile)) =>
      "role" in profile && profile["role"].Str?
      && var role := ToUpper(profile["role"].s);
      role == "ADMIN" || role == "DIRIGENTE"
  }

  /** `s` equals the all-capitals word `word` ignoring case, character by character. */
  predicate EqualsIgnoringCase(s: string, word: string) {
    |s| == |word| && forall i :: 0 <= i < |s| ==> UppercasesTo(s[i], word[i])
  }

  lemma UpperEqualsWord(s: string, word: string)
    requires forall i :: 0 <= i < |word| ==> 'A' <= word[i] <= 'Z'
    ensures ToUpper(s) == word <==> EqualsIgnoringCase(s, word)
  {
  }

  /**
   * The admin check holds exactly when the query succeeded, found a profile,
   * and the first profile's role is a string equal to ADMIN or DIRIGENTE
   * ignoring case.
   */
  lemma IsAdminCharacterization(response: Result<seq<Document>, StoreError>)
    ensures IsAdmin(response) <==>
      && response.Success?
      && |response.value| > 0
      && "role" in response.value[0]
      && response.value[0]["role"].Str?
      && (|| EqualsIgnoringCase(response.value[0]["role"].s, "ADMIN")
          || EqualsIgnoringCase(response.value[0]["role"].s, "DIRIGENTE"))
  {
  }

  /** The stored form of a profile payload. */
  function ProfileDocument(p: Profile): (d: Document)
    ensures d.Keys == {"user_id", "full_name", "cognome", "telefono", "role", "data_nascita",
                       "luogo_nascita", "created_at", "updated_at"}
                      + (if p.email.Undefined? then {} else {"email"})
    ensures d["user_id"] == Str(p.user_id) && d["role"] == Str(p.role)
    ensures d["full_name"] == Str(p.full_name) && d["cognome"] == Str(p.cognome)
    ensures d["telefono"] == Str(p.telefono)
    ensures d["data_nascita"] == Str(p.data_nascita) && d["luogo_nascita"] == Str(p.luogo_nascita)
    ensures d["created_at"] == Time(p.created_at) && d["updated_at"] == Time(p.updated_at)
    ensures p.email.Null? ==> d["email"] == NullValue
    ensures p.email.Text? ==> d["email"] == Str(p.email.text)
  {
    map[
      "user_id" := Str(p.user_id),
      "full_name" := Str(p.full_name),
      "cognome" := Str(p.cognome),
      "telefono" := Str(p.telefono),
      "role" := Str(p.role),
      "data_nascita" := Str(p.data_nascita),
      "luogo_nascita" := Str(p.luogo_nascita),
      "created_at" := Time(p.created_at),
      "updated_at" := Time(p.updated_at)]
    + FieldEntry("email", p.email)
  }

  /** A freshly registered user is not an admin. */
  lemma NewProfileIsNotAdmin(d: Registration, userId: string, createdAt: int, updatedAt: int, others: seq<Document>)
    ensures !IsAdmin(Success([ProfileDocument(CreateUserProfile(d, userId, createdAt, updatedAt))] + others))
  {
  }

  /**
   * Registering Anna Rossi in 2025 gives the profile name "Anna Rossi" and a
   * card number of the form MA2025 followed by five digits.
   */
  lemma AnnaRossiRegistration(userId: string, random: RandomDraw, now: int)
    ensures var d := Registration(Text("a@b.com"), Text("Anna"), Text("Rossi"), Undefined, Undefined, Undefined);
      var p := CreateUserProfile(d, userId, now, now);
      var t := CreateTessera(userId, p, 2025, random, now, now, now);
      && p.full_name == "Anna Rossi"
      && |t.numero_tessera| == 11
      && t.numero_tessera[..6] == "MA2025"
      && AllDigits(t.numero_tessera[6..])
      && t.stato == "ATTIVA"
  {
    AnnaRossiFullName();
    CardNumberOf2025(random);
  }

  lemma AnnaRossiFullName()
    ensures Trim(NameTemplate(Registration(Text("a@b.com"), Text("Anna"), Text("Rossi"), Undefined, Undefined, Undefined))) == "Anna Rossi"
  {
  }

  lemma CardNumberOf2025(random: RandomDraw)
    ensures var s := CardNumber(2025, random);
      |s| == 11 && s[..6] == "MA2025" && AllDigits(s[6..])
  {
    assert ToDecimal(20) == ToDecimal(2) + "0";
    assert ToDecimal(202) == ToDecimal(20) + "2";
    assert ToDecimal(2025) == ToDecimal(202) + "5" == "2025";
    var s := CardNumber(2025, random);
    assert s[..6] == s[..2] + s[2..|s| - 5];
    assert s[6..] == s[2..][4..];
  }
}
