// The string handling of the PDF export: the comment cleaner applied to
// comments read back from a previous document, and the user name and file
// name of the document. Regular expressions are written out as explicit
// recognisers over ASCII character classes.

module PdfText {
  import opened Records
  import opened Text

  // ---------------------------------------------------------------------
  // Trimming

  /** `Char.isWhitespace` on ASCII: `\s` plus the four separator controls
      U+001C..U+001F. */
  predicate IsWhitespace(c: char)
  {
    IsSpace(c) || '\U{1C}' <= c <= '\U{1F}'
  }

  /** `isBlank`. */
  predicate IsBlank(s: string)
  {
    forall i :: 0 <= i < |s| ==> IsWhitespace(s[i])
  }

  /** The first position that is not whitespace (|s| when there is none). */
  function FirstNonSpace(s: string, i: nat := 0): (r: nat)
    requires i <= |s|
    ensures i <= r <= |s|
    ensures forall k :: i <= k < r ==> IsWhitespace(s[k])
    ensures r < |s| ==> !IsWhitespace(s[r])
    decreases |s| - i
  {
    if i < |s| && IsWhitespace(s[i]) then FirstNonSpace(s, i + 1) else i
  }

  /** The position after the last character that is not whitespace, at or
      below `j` (`lo` when there is none from `lo` on). */
  function LastNonSpaceEnd(s: string, lo: nat, j: nat): (r: nat)
    requires lo <= j <= |s|
    ensures lo <= r <= j
    ensures forall k :: r <= k < j ==> IsWhitespace(s[k])
    ensures r > lo ==> !IsWhitespace(s[r - 1])
    decreases j
  {
    if j > lo && IsWhitespace(s[j - 1]) then LastNonSpaceEnd(s, lo, j - 1) else j
  }

  /** `trim()`: drops leading and trailing whitespace. */
  function Trim(s: string): (r: string)
    ensures r == [] || (!IsWhitespace(r[0]) && !IsWhitespace(r[|r| - 1]))
    ensures r == [] <==> IsBlank(s)
  {
    var i := FirstNonSpace(s);
    var j := LastNonSpaceEnd(s, i, |s|);
    assert i < |s| ==> j > i;
    s[i..j]
  }

  /** Trimming twice is trimming once. */
  lemma TrimIdempotent(s: string)
    ensures Trim(Trim(s)) == Trim(s)
  {
    var t := Trim(s);
    if t != [] {
      assert FirstNonSpace(t) == 0;
      assert LastNonSpaceEnd(t, 0, |t|) == |t|;
    }
  }

  // ---------------------------------------------------------------------
  // The forbidden patterns of `cleanObservationsField`

  /** Digits at every position in `[i, j)`. */
  predicate DigitsAt(s: string, i: nat, j: nat)
  {
    i <= j <= |s| && forall k :: i <= k < j ==> IsDigit(s[k])
  }

  /** `\d{2}/\d{2}/\d{4}` at `i`. */
  predicate SlashDateAt(s: string, i: nat)
  {
    i + 10 <= |s| && DigitsAt(s, i, i + 2) && s[i + 2] == '/' && DigitsAt(s, i + 3, i + 5)
    && s[i + 5] == '/' && DigitsAt(s, i + 6, i + 10)
  }

  /** `\d{4}-\d{2}-\d{2}` at `i`. */
  predicate IsoDateAt(s: string, i: nat)
  {
    i + 10 <= |s| && DigitsAt(s, i, i + 4) && s[i + 4] == '-' && DigitsAt(s, i + 5, i + 7)
    && s[i + 7] == '-' && DigitsAt(s, i + 8, i + 10)
  }

  /** `\d{2}:\d{2}` at `i`. */
  predicate ClockAt(s: string, i: nat)
  {
    i + 5 <= |s| && DigitsAt(s, i, i + 2) && s[i + 2] == ':' && DigitsAt(s, i + 3, i + 5)
  }

  /** `\d{4}/\d{2}/\d{2}\s+\d{2}:\d{2}` at `i`; a digit cannot be `\s`, so
      the spaces are the whole run. */
  predicate StampAt(s: string, i: nat)
  {
    i + 10 <= |s| && DigitsAt(s, i, i + 4) && s[i + 4] == '/' && DigitsAt(s, i + 5, i + 7)
    && s[i + 7] == '/' && DigitsAt(s, i + 8, i + 10)
    && SpacesEnd(s, i + 10) > i + 10 && ClockAt(s, SpacesEnd(s, i + 10))
  }

  /** `word` at `i`, ignoring ASCII case; `word` is lower case. */
  predicate WordAt(s: string, i: nat, word: string)
  {
    i + |word| <= |s| && forall k :: 0 <= k < |word| ==> LowerChar(s[i + k]) == word[k]
  }

  /** `^[\d\s:/-]+$`. */
  predicate OnlyNumbers(s: string)
  {
    s != [] && forall k :: 0 <= k < |s| ==>
      IsDigit(s[k]) || IsSpace(s[k]) || s[k] == ':' || s[k] == '/' || s[k] == '-'
  }

  /** Any of the forbidden patterns occurs in `s`: a date, a time, a
      duration, "total" or "pendiente" in any case, only numbers and
      separators, or an automatic timestamp. */
  predicate HasForbiddenPattern(s: string)
  {
    (exists i :: 0 <= i <= |s| && SlashDateAt(s, i))
    || (exists i :: 0 <= i <= |s| && IsoDateAt(s, i))
    || (exists i :: 0 <= i <= |s| && ClockAt(s, i))
    || FindHoursMinutes(s).Some?
    || (exists i :: 0 <= i <= |s| && WordAt(s, i, "total"))
    || (exists i :: 0 <= i <= |s| && WordAt(s, i, "pendiente"))
    || OnlyNumbers(s)
    || (exists i :: 0 <= i <= |s| && StampAt(s, i))
  }

  /** The timestamp pattern never rejects a comment the time pattern has not
      already rejected: its last five characters are a time. */
  lemma StampHasClock(s: string, i: nat)
    requires StampAt(s, i)
    ensures exists k :: 0 <= k <= |s| && ClockAt(s, k)
  {
    assert ClockAt(s, SpacesEnd(s, i + 10));
  }

  /** `cleanObservationsField`: the trimmed comment when it looks like text a
      user wrote, otherwise "". */
  function CleanObservationsField(comment: string): (r: string)
    ensures r == "" || r == Trim(comment)
    ensures r != "" <==> (!IsBlank(comment) && !HasForbiddenPattern(Trim(comment))
                          && exists k :: 0 <= k < |Trim(comment)| && IsLetter(Trim(comment)[k]))
  {
    if IsBlank(comment) then ""
    else
      var trimmedComment := Trim(comment);
      if HasForbiddenPattern(trimmedComment) then ""
      else if exists k :: 0 <= k < |trimmedComment| && IsLetter(trimmedComment[k]) then trimmedComment
      else ""
  }

  /** Cleaning a cleaned comment changes nothing. */
  lemma CleanIdempotent(comment: string)
    ensures CleanObservationsField(CleanObservationsField(comment)) == CleanObservationsField(comment)
  {
    var r := CleanObservationsField(comment);
    if r != "" {
      TrimIdempotent(comment);
      assert Trim(r) == r;
    }
  }

  // ---------------------------------------------------------------------
  // User name and file name

  /** The signed-in user as far as the export uses it. */
  datatype User = User(displayName: Option<string>, email: Option<string>)

  const UnknownUser: string := "Usuario_Desconocido"

  /** `substringBefore(c)`: the text before the first `c`, or all of it. */
  function SubstringBefore(s: string, c: char): (r: string)
    ensures r <= s && c !in r
    ensures |r| < |s| ==> s[|r|] == c
  {
    if s == [] then []
    else if s[0] == c then []
    else [s[0]] + SubstringBefore(s[1..], c)
  }

  /** `split(c)`: the parts between occurrences of `c`, empty ones kept. */
  function Split(s: string, c: char): (r: seq<string>)
    ensures r != []
    ensures forall k :: 0 <= k < |r| ==> c !in r[k]
    decreases |s|
  {
    var head := SubstringBefore(s, c);
    if |head| == |s| then [s] else [head] + Split(s[|head| + 1..], c)
  }

  /** `replaceFirstChar { it.uppercase() }`. */
  function Capitalize(part: string): (r: string)
    ensures |r| == |part|
  {
    if part == [] then [] else [UpperChar(part[0])] + part[1..]
  }

  /** `joinToString(" ") { capitalize }`. */
  function JoinCapitalized(parts: seq<string>): (r: string)
    requires parts != []
  {
    if |parts| == 1 then Capitalize(parts[0])
    else Capitalize(parts[0]) + " " + JoinCapitalized(parts[1..])
  }

  /** The name built from an e-mail address: the local part, split on dots,
      each piece capitalised, joined with spaces. */
  function NameFromEmail(email: string): string
  {
    JoinCapitalized(Split(SubstringBefore(email, '@'), '.'))
  }

  /** Character by character: what the name holds at each position of the
      local part. */
  ghost predicate CapitalizedAt(local: string, r: string)
  {
    |r| == |local| && forall k :: 0 <= k < |local| ==> r[k] == NameCharAt(local, k)
  }

  /** The name's character at position `k` of the local part: a dot turns
      into a space, the first character and any character after a dot are
      upper-cased, and every other character is kept. */
  function NameCharAt(local: string, k: int): char
    requires 0 <= k < |local|
  {
    if local[k] == '.' then ' '
    else if k == 0 || local[k - 1] == '.' then UpperChar(local[k])
    else local[k]
  }

  /** The name is the local part with each dot turned into a space and the
      first letter after the start or a dot upper-cased. */
  lemma NameFromEmailAt(email: string)
    ensures CapitalizedAt(SubstringBefore(email, '@'), NameFromEmail(email))
  {
    JoinSplitAt(SubstringBefore(email, '@'));
  }

  lemma {:induction false} JoinSplitAt(s: string)
    ensures CapitalizedAt(s, JoinCapitalized(Split(s, '.')))
    decreases |s|
  {
    var head := SubstringBefore(s, '.');
    if |head| == |s| {
      assert head == s;
    } else {
      var rest := s[|head| + 1..];
      JoinSplitAt(rest);
      var parts := Split(s, '.');
      assert parts == [head] + Split(rest, '.');
      assert |parts| > 1 && parts[0] == head && parts[1..] == Split(rest, '.');
      assert JoinCapitalized(parts) == Capitalize(head) + " " + JoinCapitalized(Split(rest, '.'));
      assert s == head + "." + rest by {
        assert s[..|head|] == head;
      }
      CapitalizedConcat(head, rest, JoinCapitalized(Split(rest, '.')));
    }
  }

  /** A dot-free piece, a dot and the rest: the piece capitalised, a space,
      and the rest's name. */
  lemma CapitalizedConcat(head: string, rest: string, tail: string)
    requires '.' !in head && CapitalizedAt(rest, tail)
    ensures CapitalizedAt(head + "." + rest, Capitalize(head) + " " + tail)
  {
    var s := head + "." + rest;
    var r := Capitalize(head) + " " + tail;
    forall k | 0 <= k < |s|
      ensures r[k] == NameCharAt(s, k)
    {
      if k < |head| {
        assert s[k] == head[k] && r[k] == Capitalize(head)[k];
        assert head[k] in head;
        assert k == 0 ==> r[k] == UpperChar(s[k]);
        if k > 0 {
          assert s[k - 1] == head[k - 1] && head[k - 1] in head;
          assert Capitalize(head)[k] == head[k];
        }
      } else if k == |head| {
        assert s[k] == '.' && r[k] == ' ';
      } else {
        var j := k - |head| - 1;
        assert s[k] == rest[j] && r[k] == tail[j];
        assert tail[j] == NameCharAt(rest, j);
        if j > 0 {
          assert s[k - 1] == rest[j - 1];
        } else {
          assert s[k - 1] == '.';
        }
      }
    }
    assert |r| == |s|;
    assert CapitalizedAt(s, r);
  }


  /** `getUserDisplayName`: the account's display name, else the name built
      from its e-mail, else the fixed fallback. */
  function UserDisplayName(user: Option<User>): (r: string)
    ensures user.None? ==> r == UnknownUser
    ensures user.Some? && user.value.displayName.Some? ==> r == user.value.displayName.value
    ensures user.Some? && user.value.displayName.None? && user.value.email.Some? ==>
              CapitalizedAt(SubstringBefore(user.value.email.value, '@'), r)
    ensures user.Some? && user.value.displayName.None? && user.value.email.None? ==> r == UnknownUser
  {
    match user
    case None => UnknownUser
    case Some(u) =>
      if u.displayName.Some? then u.displayName.value
      else if u.email.Some? then NameFromEmailAt(u.email.value); NameFromEmail(u.email.value)
      else UnknownUser
  }

  /** `replace(" ", "_").replace(".", "_")`. */
  function Underscored(name: string): (r: string)
    ensures |r| == |name|
    ensures forall k :: 0 <= k < |name| ==>
      r[k] == if name[k] == ' ' || name[k] == '.' then '_' else name[k]
  {
    seq(|name|, k requires 0 <= k < |name| => if name[k] == ' ' || name[k] == '.' then '_' else name[k])
  }

  /** `generateFileName`: the fixed prefix, the user's name with each space
      and dot turned into '_', and the extension. */
  function FileName(name: string): (r: string)
    ensures |r| == 16 + |name| + 4
    ensures r[..16] == "RegistroHorario_" && r[|r| - 4..] == ".pdf"
    ensures forall k :: 0 <= k < |name| ==>
      r[16 + k] == (if name[k] == ' ' || name[k] == '.' then '_' else name[k])
  {
    "RegistroHorario_" + Underscored(name) + ".pdf"
  }

  /** The part of the file name taken from the user has neither spaces nor
      dots, so the file name has exactly one dot, before "pdf". */
  lemma FileNameOneDot(name: string)
    ensures var r := FileName(name);
      forall k :: 0 <= k < |r| ==> (r[k] == '.' <==> k == |r| - 4)
  {
    var r := FileName(name);
    var u := Underscored(name);
    assert |r| == 16 + |u| + 4;
    forall k | 0 <= k < |r| ensures r[k] == '.' <==> k == |r| - 4 {
      if 16 <= k < 16 + |u| {
        assert r[k] == u[k - 16];
      }
    }
  }
}
