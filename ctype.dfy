/** The character classifiers and case conversions of the kernel's string
    library, on C `int` arguments. Each classifier returns a truth value
    (C's 0 or 1). Only the ASCII letters, digits and the listed control
    characters are recognised; there is no locale. */
module CType {

  predicate IsUpper(c: int) {
    'A' as int <= c <= 'Z' as int
  }

  predicate IsLower(c: int) {
    'a' as int <= c <= 'z' as int
  }

  /** `isprint`: the 95 printable ASCII characters, space included; the
      control characters below 32 and DEL are not printable. */
  function IsPrint(c: int): (r: bool)
    ensures r ==> 0 <= c < 128
    ensures c < 32 || c == 127 ==> !r
  {
    32 <= c <= 126
  }

  /** `isdigit`: a decimal digit, whose value is `c - '0'`. */
  function IsDigit(c: int): (r: bool)
    ensures r <==> 0 <= c - '0' as int < 10
    ensures r ==> IsPrint(c) && !IsUpper(c) && !IsLower(c)
  {
    '0' as int <= c <= '9' as int
  }

  /** `isalpha`: an ASCII letter, upper- or lower-case. */
  function IsAlpha(c: int): (r: bool)
    ensures r <==> IsUpper(c) || IsLower(c)
    ensures r ==> IsPrint(c) && !IsDigit(c)
  {
    ('a' as int <= c <= 'z' as int) || ('A' as int <= c <= 'Z' as int)
  }

  /** `isalnum`: a letter or a digit; all of them are printable. */
  function IsAlnum(c: int): (r: bool)
    ensures r <==> IsUpper(c) || IsLower(c) || IsDigit(c)
    ensures r ==> IsPrint(c)
  {
    IsAlpha(c) || IsDigit(c)
  }

  /** `isspace`: space, tab, newline, carriage return, form feed, vertical
      tab. None of them is a letter or digit, and the space is the only
      printable one. */
  function IsSpace(c: int): (r: bool)
    ensures r ==> !IsAlnum(c)
    ensures r && IsPrint(c) <==> c == ' ' as int
  {
    c == ' ' as int || c == '\t' as int || c == '\n' as int || c == '\r' as int
    || c == 0x0C || c == 0x0B
  }

  /** `tolower`: an upper-case letter becomes its lower-case partner; every
      other value is returned unchanged. */
  function ToLower(c: int): (r: int)
    ensures !IsUpper(r)
    ensures IsAlpha(r) <==> IsAlpha(c)
    ensures !IsUpper(c) ==> r == c
    ensures IsUpper(c) ==> r - c == 'a' as int - 'A' as int
  {
    if IsUpper(c) then c + ('a' as int - 'A' as int) else c
  }

  /** `toupper`: a lower-case letter becomes its upper-case partner; every
      other value is returned unchanged. */
  function ToUpper(c: int): (r: int)
    ensures !IsLower(r)
    ensures IsAlpha(r) <==> IsAlpha(c)
    ensures !IsLower(c) ==> r == c
    ensures IsLower(c) ==> c - r == 'a' as int - 'A' as int
  {
    if IsLower(c) then c - ('a' as int - 'A' as int) else c
  }

  /** The two conversions undo each other on letters. */
  lemma CaseRoundTrip(c: int)
    ensures IsUpper(c) ==> ToUpper(ToLower(c)) == c
    ensures IsLower(c) ==> ToLower(ToUpper(c)) == c
  {
  }
}
