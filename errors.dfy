/** The error vocabulary of the persistence layer, the text each error
    displays, and the application-name validation that runs before every
    write (crates/db/src/error.rs). */
module Errors {
  import opened Wrappers

  /** The persistence errors. `DatabaseError` carries the description of the
      underlying storage-engine failure. */
  datatype DbError =
    | InvalidName(reason: string)
    | DuplicateName(name: string)
    | NotFound(what: string)
    | DatabaseError(cause: string)
    | Internal(detail: string)

  /** `Result<T>` of the persistence layer: the error type is always `DbError`. */
  datatype Result<+T> = Ok(value: T) | Err(error: DbError)

  // ---------------------------------------------------------------------
  // Display text of each error
  // ---------------------------------------------------------------------

  const InvalidNamePrefix := "Invalid name: "
  const NotFoundPrefix := "Not found: "
  const DatabaseErrorPrefix := "Database error: "
  const InternalPrefix := "Internal error: "
  const DuplicateOpen := "Name '"
  const DuplicateClose := "' already exists"

  /** The message each error variant formats to. */
  function Display(e: DbError): string
  {
    match e
    case InvalidName(reason) => InvalidNamePrefix + reason
    case DuplicateName(name) => DuplicateOpen + name + DuplicateClose
    case NotFound(what) => NotFoundPrefix + what
    case DatabaseError(cause) => DatabaseErrorPrefix + cause
    case Internal(detail) => InternalPrefix + detail
  }

  predicate HasPrefix(s: string, p: string)
  {
    |p| <= |s| && s[..|p|] == p
  }

  predicate HasSuffix(s: string, p: string)
  {
    |p| <= |s| && s[|s| - |p|..] == p
  }

  /** Reads an error back from its displayed message: the independent
      partner of `Display`. */
  function ParseDisplay(s: string): Option<DbError>
  {
    if HasPrefix(s, InvalidNamePrefix) then Some(InvalidName(s[|InvalidNamePrefix|..]))
    else if HasPrefix(s, NotFoundPrefix) then Some(NotFound(s[|NotFoundPrefix|..]))
    else if HasPrefix(s, DatabaseErrorPrefix) then Some(DatabaseError(s[|DatabaseErrorPrefix|..]))
    else if HasPrefix(s, InternalPrefix) then Some(Internal(s[|InternalPrefix|..]))
    else if |DuplicateOpen| + |DuplicateClose| <= |s| && HasPrefix(s, DuplicateOpen) && HasSuffix(s, DuplicateClose)
    then Some(DuplicateName(s[|DuplicateOpen|..|s| - |DuplicateClose|]))
    else None
  }

  /** Every error can be read back from its message, so no two errors
      display alike. */
  lemma ParseDisplayInverts(e: DbError)
    ensures ParseDisplay(Display(e)) == Some(e)
  {
    var s := Display(e);
    match e
    case InvalidName(reason) =>
      assert s[..|InvalidNamePrefix|] == InvalidNamePrefix;
    case DuplicateName(name) =>
      assert s[0] == 'N' && s[1] == 'a';
      assert !HasPrefix(s, InvalidNamePrefix) && !HasPrefix(s, NotFoundPrefix);
      assert !HasPrefix(s, DatabaseErrorPrefix) && !HasPrefix(s, InternalPrefix);
      assert s[..|DuplicateOpen|] == DuplicateOpen;
      assert s[|s| - |DuplicateClose|..] == DuplicateClose;
      assert s[|DuplicateOpen|..|s| - |DuplicateClose|] == name;
    case NotFound(what) =>
      assert s[0] == 'N';
      assert !HasPrefix(s, InvalidNamePrefix);
      assert s[..|NotFoundPrefix|] == NotFoundPrefix;
    case DatabaseError(cause) =>
      assert s[0] == 'D';
      assert !HasPrefix(s, InvalidNamePrefix) && !HasPrefix(s, NotFoundPrefix);
      assert s[..|DatabaseErrorPrefix|] == DatabaseErrorPrefix;
    case Internal(detail) =>
      assert s[0] == 'I' && s[2] == 't';
      assert !HasPrefix(s, InvalidNamePrefix) && !HasPrefix(s, NotFoundPrefix);
      assert !HasPrefix(s, DatabaseErrorPrefix);
      assert s[..|InternalPrefix|] == InternalPrefix;
  }

  /** Two errors with the same message are the same error. */
  lemma DisplayInjective(e1: DbError, e2: DbError)
    ensures Display(e1) == Display(e2) ==> e1 == e2
  {
    ParseDisplayInverts(e1);
    ParseDisplayInverts(e2);
  }

  /** The duplicate-name message embeds the rejected name verbatim between
      the quotes. */
  lemma DuplicateMessageEmbedsName(name: string)
    ensures var s := Display(DuplicateName(name));
      HasPrefix(s, DuplicateOpen) && HasSuffix(s, DuplicateClose)
      && s[|DuplicateOpen|..|s| - |DuplicateClose|] == name
  {
    var s := Display(DuplicateName(name));
    assert s[..|DuplicateOpen|] == DuplicateOpen;
    assert s[|s| - |DuplicateClose|..] == DuplicateClose;
    assert s[|DuplicateOpen|..|s| - |DuplicateClose|] == name;
  }

  // ---------------------------------------------------------------------
  // Byte length and character classes
  // ---------------------------------------------------------------------

  /** Number of bytes UTF-8 uses for one Unicode scalar value (RFC 3629,
      section 3). */
  function Utf8Width(c: char): (w: nat)
    ensures 1 <= w <= 4
    ensures w == 1 <==> c as int < 0x80
  {
    if c as int < 0x80 then 1
    else if c as int < 0x800 then 2
    else if c as int < 0x1_0000 then 3
    else 4
  }

  /** The length of the UTF-8 encoding of `s`, which is what Rust's
      `str::len` returns. */
  function ByteLen(s: string): nat
  {
    if s == [] then 0 else Utf8Width(s[0]) + ByteLen(s[1..])
  }

  predicate IsAscii(s: string)
  {
    forall i | 0 <= i < |s| :: s[i] as int < 0x80
  }

  lemma {:induction false} ByteLenBounds(s: string)
    ensures |s| <= ByteLen(s) <= 4 * |s|
  {
    if s != [] {
      ByteLenBounds(s[1..]);
    }
  }

  /** Byte length and character count agree exactly on ASCII text. */
  lemma {:induction false} ByteLenAscii(s: string)
    ensures ByteLen(s) == |s| <==> IsAscii(s)
  {
    if s != [] {
      ByteLenBounds(s[1..]);
      ByteLenAscii(s[1..]);
      if ByteLen(s) == |s| {
        assert Utf8Width(s[0]) == 1;
        assert forall i | 1 <= i < |s| :: s[i] == s[1..][i - 1];
      }
      if IsAscii(s) {
        assert IsAscii(s[1..]);
      }
    }
  }

  predicate IsAsciiAlnum(c: char)
  {
    ('a' <= c <= 'z') || ('A' <= c <= 'Z') || ('0' <= c <= '9')
  }

  /** Alphabetic or numeric characters of the Latin-1 Supplement block
      (U+0080..U+00FF): the ordinal indicators, the micro sign, the
      superscript digits, the vulgar fractions and the accented letters. */
  predicate IsLatin1Alnum(c: char)
  {
    var n := c as int;
    n == 0xAA || n == 0xB2 || n == 0xB3 || n == 0xB5 || n == 0xB9 || n == 0xBA
    || (0xBC <= n <= 0xBE) || (0xC0 <= n <= 0xD6) || (0xD8 <= n <= 0xF6) || (0xF8 <= n <= 0xFF)
  }

  /** Rust's `char::is_alphanumeric` (Unicode Alphabetic or Numeric), exact
      below U+0100. */
  predicate IsAlnum(c: char)
  {
    IsAsciiAlnum(c) || IsLatin1Alnum(c)
  }

  /** A character allowed anywhere in an application name. */
  predicate IsNameChar(c: char)
  {
    IsAlnum(c) || c == '-' || c == '_'
  }

  // ---------------------------------------------------------------------
  // Name validation
  // ---------------------------------------------------------------------

  const MaxNameBytes: nat := 255

  const EmptyReason := "name cannot be empty"
  const TooLongReason := "name cannot exceed 255 characters"
  const BadStartReason := "name must start with alphanumeric character"
  const BadCharReason := "name can only contain alphanumeric characters, hyphens, and underscores"

  /** The four rules together: the reference the validator is proved against. */
  predicate IsValidAppName(name: string)
  {
    && name != []
    && ByteLen(name) <= MaxNameBytes
    && IsAlnum(name[0])
    && forall i | 0 <= i < |name| :: IsNameChar(name[i])
  }

  /** Checks the rules in order and reports the first one that fails. */
  function ValidateAppName(name: string): (r: Result<()>)
    ensures r.Ok? <==> IsValidAppName(name)
    ensures r.Err? ==> r.error.InvalidName?
    ensures name == [] ==> r == Err(InvalidName(EmptyReason))
    ensures name != [] && ByteLen(name) > MaxNameBytes ==> r == Err(InvalidName(TooLongReason))
    ensures name != [] && ByteLen(name) <= MaxNameBytes && !IsAlnum(name[0])
      ==> r == Err(InvalidName(BadStartReason))
    ensures name != [] && ByteLen(name) <= MaxNameBytes && IsAlnum(name[0]) && !IsValidAppName(name)
      ==> r == Err(InvalidName(BadCharReason))
  {
    if name == [] then Err(InvalidName(EmptyReason))
    else if ByteLen(name) > MaxNameBytes then Err(InvalidName(TooLongReason))
    else if !IsAlnum(name[0]) then Err(InvalidName(BadStartReason))
    else if !(forall i | 0 <= i < |name| :: IsNameChar(name[i])) then Err(InvalidName(BadCharReason))
    else Ok(())
  }

  /** `n` copies of `c`, as `str::repeat` builds them. */
  function Repeat(c: char, n: nat): (s: string)
    ensures |s| == n
    ensures forall i | 0 <= i < n :: s[i] == c
  {
    if n == 0 then [] else [c] + Repeat(c, n - 1)
  }

  lemma {:induction false} ByteLenRepeat(c: char, n: nat)
    ensures ByteLen(Repeat(c, n)) == n * Utf8Width(c)
  {
    if n > 0 {
      ByteLenRepeat(c, n - 1);
      assert Repeat(c, n)[1..] == Repeat(c, n - 1);
    }
  }

  /** Accepted names are never longer than 255 characters, and on ASCII
      names the byte bound is a character bound. */
  lemma LengthRuleInCharacters(name: string)
    ensures IsValidAppName(name) ==> |name| <= MaxNameBytes
    ensures IsAscii(name) ==> (ByteLen(name) <= MaxNameBytes <==> |name| <= MaxNameBytes)
  {
    ByteLenBounds(name);
    ByteLenAscii(name);
  }

  /** A name of at most 63 characters always passes the length rule. */
  lemma ShortNamePassesLengthRule(s: string)
    requires |s| <= 63
    ensures ByteLen(s) <= MaxNameBytes
  {
    ByteLenBounds(s);
  }

  /** The length rule counts bytes, not characters: 128 copies of U+00E9
      (two bytes each) are read as too long although they are 128
      characters, all of them alphanumeric. */
  lemma LengthRuleCountsBytes()
    ensures var s := Repeat(0xE9 as char, 128);
      |s| == 128 && (forall i | 0 <= i < |s| :: IsAlnum(s[i]))
      && ValidateAppName(s) == Err(InvalidName(TooLongReason))
  {
    ByteLenRepeat(0xE9 as char, 128);
  }

  /** The names the source's unit test accepts. */
  lemma AcceptedExamples()
    ensures ValidateAppName("my-app") == Ok(())
    ensures ValidateAppName("my_app") == Ok(())
    ensures ValidateAppName("app123") == Ok(())
    ensures ValidateAppName("MyApp") == Ok(())
  {
  }

  /** The names the source's unit test rejects, each with the rule that
      rejects it. */
  lemma RejectedExamples()
    ensures ValidateAppName("") == Err(InvalidName(EmptyReason))
    ensures ValidateAppName("-app") == Err(InvalidName(BadStartReason))
    ensures ValidateAppName("_app") == Err(InvalidName(BadStartReason))
    ensures ValidateAppName("my app") == Err(InvalidName(BadCharReason))
    ensures ValidateAppName("my@app") == Err(InvalidName(BadCharReason))
  {
    assert !IsNameChar("my app"[2]);
    assert !IsNameChar("my@app"[2]);
  }

  /** 256 copies of `a` break the length rule. */
  lemma TooLongExample()
    ensures ValidateAppName(Repeat('a', 256)) == Err(InvalidName(TooLongReason))
  {
    ByteLenRepeat('a', 256);
  }
}
