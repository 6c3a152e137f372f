/**
 * The registration form's email check: a submitted email address is
 * refused when an existing user already has that address, compared without
 * regard to letter case; otherwise it is accepted exactly as submitted.
 *
 * The user table is a sequence of the existing users' email addresses, and
 * the database's case-insensitive comparison is ASCII case folding.
 */
module Forms {

  type Email = string

  /** A field cleaner either yields the cleaned value or raises a validation
      error carrying a message. */
  datatype Result<T> = Ok(value: T) | Err(message: string)

  /** "A user with this email address already exists." */
  const DuplicateEmailMessage: string := "Użytkownik z tym adresem email już istnieje."

  predicate IsAsciiUpper(c: char) {
    'A' <= c <= 'Z'
  }

  /** Folds one character: an ASCII capital becomes its small letter, every
      other character stays as it is. */
  function FoldChar(c: char): (d: char)
    ensures !IsAsciiUpper(d)
    ensures !IsAsciiUpper(c) ==> d == c
    ensures IsAsciiUpper(c) ==> 'a' <= d <= 'z' && d as int - 'a' as int == c as int - 'A' as int
  {
    if IsAsciiUpper(c) then (c as int + ('a' as int - 'A' as int)) as char else c
  }

  /** Folds every character of a string. */
  function Fold(s: string): (t: string)
    ensures |t| == |s|
    ensures forall i :: 0 <= i < |s| ==> t[i] == FoldChar(s[i])
  {
    if s == [] then [] else [FoldChar(s[0])] + Fold(s[1..])
  }

  /** Case-insensitive equality (`iexact`). */
  predicate IExact(a: string, b: string) {
    Fold(a) == Fold(b)
  }

  /** Whether some existing address equals the submitted one without regard
      to case (`filter(email__iexact=...).exists()`). */
  function EmailTaken(existing: seq<Email>, email: Email): (taken: bool)
    ensures taken <==> exists i :: 0 <= i < |existing| && IExact(existing[i], email)
  {
    |existing| > 0 && (IExact(existing[0], email) || EmailTaken(existing[1..], email))
  }

  /** The form's email cleaner. */
  function CleanEmail(email: Email, existing: seq<Email>): (r: Result<Email>)
    ensures r.Err? <==> exists i :: 0 <= i < |existing| && IExact(existing[i], email)
    ensures r.Err? ==> r.message == DuplicateEmailMessage
    ensures r.Ok? ==> r.value == email
  {
    if EmailTaken(existing, email) then Err(DuplicateEmailMessage) else Ok(email)
  }

  /** Two strings are case variants of each other when they have the same
      length and agree, position by position, up to the case of ASCII
      letters. */
  predicate CaseVariant(a: string, b: string) {
    |a| == |b| && forall i :: 0 <= i < |a| ==> FoldChar(a[i]) == FoldChar(b[i])
  }

  /** Folding agrees with the position-by-position notion of case variants. */
  lemma CaseVariantIffIExact(a: string, b: string)
    ensures CaseVariant(a, b) <==> IExact(a, b)
  {
    if IExact(a, b) {
      forall i | 0 <= i < |a|
        ensures FoldChar(a[i]) == FoldChar(b[i])
      {
        assert Fold(a)[i] == Fold(b)[i];
      }
    }
    if CaseVariant(a, b) {
      assert forall i :: 0 <= i < |a| ==> Fold(a)[i] == Fold(b)[i];
    }
  }

  /** An address is refused exactly when one of its case variants is
      already registered. */
  lemma RefusedIffVariantRegistered(email: Email, existing: seq<Email>)
    ensures CleanEmail(email, existing).Err? <==>
            exists i :: 0 <= i < |existing| && CaseVariant(existing[i], email)
  {
    forall i | 0 <= i < |existing| {
      CaseVariantIffIExact(existing[i], email);
    }
  }

  /** Refusal does not depend on the case of the submitted address: if one
      address is refused, so is every case variant of it. */
  lemma RefusalIgnoresCase(email: Email, variant: Email, existing: seq<Email>)
    requires CaseVariant(email, variant)
    ensures CleanEmail(email, existing).Err? <==> CleanEmail(variant, existing).Err?
  {
    CaseVariantIffIExact(email, variant);
  }

  /** An accepted address comes back exactly as submitted, capitals included;
      it is not replaced by its folded form. */
  lemma AcceptedEmailKeepsItsCase(email: Email, existing: seq<Email>)
    requires CleanEmail(email, existing).Ok?
    requires exists i :: 0 <= i < |email| && IsAsciiUpper(email[i])
    ensures CleanEmail(email, existing).value == email
    ensures CleanEmail(email, existing).value != Fold(email)
  {
  }

  /** Once an address is registered, it and every case variant of it are
      refused. */
  lemma RegisteredEmailBlocksVariants(email: Email, variant: Email, existing: seq<Email>)
    requires CaseVariant(variant, email)
    ensures CleanEmail(variant, existing + [email]).Err?
  {
    CaseVariantIffIExact(email, variant);
    assert (existing + [email])[|existing|] == email;
  }

  /** Registering more users never lets a refused address through: a table
      that holds every address of a refusing table refuses too. */
  lemma RefusalPersists(email: Email, existing: seq<Email>, bigger: seq<Email>)
    requires CleanEmail(email, existing).Err?
    requires forall e :: e in existing ==> e in bigger
    ensures CleanEmail(email, bigger) == Err(DuplicateEmailMessage)
  {
    var i :| 0 <= i < |existing| && IExact(existing[i], email);
    assert existing[i] in existing;
    var j :| 0 <= j < |bigger| && bigger[j] == existing[i];
  }

  /** With no users registered, a well-formed payload's address is accepted
      unchanged. */
  lemma FreshEmailAccepted()
    ensures CleanEmail("charlie@example.com", []) == Ok("charlie@example.com")
  {
  }

  /** Changing the case of the first letter gives a case variant. */
  lemma FirstLetterCaseVariant(c: char, d: char, rest: string)
    requires FoldChar(c) == FoldChar(d)
    ensures CaseVariant([c] + rest, [d] + rest)
  {
  }

  /** With "duplicate@example.com" registered, "Duplicate@example.com" is
      refused. */
  lemma CapitalisedDuplicateRefused()
    ensures CleanEmail("Duplicate@example.com", ["duplicate@example.com"]) == Err(DuplicateEmailMessage)
  {
    var registered, submitted := "duplicate@example.com", "Duplicate@example.com";
    FirstLetterCaseVariant('d', 'D', registered[1..]);
    assert [registered[0]] + registered[1..] == registered;
    assert [submitted[0]] + submitted[1..] == submitted;
    CaseVariantIffIExact(registered, submitted);
    assert [registered][0] == registered;
  }
}
