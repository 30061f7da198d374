/**
 * The selection labels of the three comboboxes, `"<id> - <text>"`, and the
 * way a handler gets the id back: `label.split(" - ")[0]`, read as a
 * decimal rowid.
 */
module Labels {
  import opened Tables
  import opened Queries

  const Separator: string := " - "

  predicate IsDigit(c: char) { '0' <= c <= '9' }

  predicate AllDigits(s: string) {
    forall i :: 0 <= i < |s| ==> IsDigit(s[i])
  }

  function DigitChar(d: nat): (c: char)
    requires d < 10
    ensures IsDigit(c)
  {
    ('0' as int + d) as char
  }

  function DigitValue(c: char): (d: nat)
    requires IsDigit(c)
    ensures d < 10 && DigitChar(d) == c
  {
    c as int - '0' as int
  }

  /**
   * The decimal text of a rowid, as Python's f-string prints it: digits
   * only, with no leading zero except for 0 itself.
   */
  function Decimal(n: nat): (r: string)
    ensures |r| > 0 && AllDigits(r)
    ensures r[0] == '0' ==> n == 0
  {
    if n < 10 then [DigitChar(n)] else Decimal(n / 10) + [DigitChar(n % 10)]
  }

  function Power10(k: nat): (p: nat)
    ensures p >= 1
  {
    if k == 0 then 1 else 10 * Power10(k - 1)
  }

  /**
   * The integer a string of digits denotes (leading zeros allowed): a
   * numeral of `k` digits denotes less than `10^k`.
   */
  function ParseDecimal(s: string): (n: nat)
    requires AllDigits(s)
    ensures n < Power10(|s|)
  {
    if s == [] then 0 else ParseDecimal(s[..|s| - 1]) * 10 + DigitValue(s[|s| - 1])
  }

  /** Reading back the decimal text of a rowid gives that rowid. */
  lemma {:induction false} ParseDecimalOfDecimal(n: nat)
    ensures ParseDecimal(Decimal(n)) == n
  {
    var s := Decimal(n);
    if n < 10 {
      assert s[..|s| - 1] == [];
    } else {
      assert s[..|s| - 1] == Decimal(n / 10);
      ParseDecimalOfDecimal(n / 10);
    }
  }

  /** The separator starts at position `i` of `s`. */
  predicate SeparatorAt(s: string, i: nat) {
    i + |Separator| <= |s| && s[i..i + |Separator|] == Separator
  }

  /** `s.split(" - ")[0]`: Python's first piece of a split on the separator, a prefix of `s`. */
  function FirstPiece(s: string): (r: string)
    ensures r <= s
  {
    if |s| < |Separator| then s
    else if s[..|Separator|] == Separator then []
    else [s[0]] + FirstPiece(s[1..])
  }

  /**
   * The first piece is the text before the leftmost separator, or all of
   * `s` when there is none.
   */
  lemma {:induction false} FirstPieceIsLeftmost(s: string)
    ensures FirstPiece(s) == s || SeparatorAt(s, |FirstPiece(s)|)
    ensures forall i :: 0 <= i < |FirstPiece(s)| ==> !SeparatorAt(s, i)
  {
    if |s| < |Separator| || s[..|Separator|] == Separator {
    } else {
      var r' := FirstPiece(s[1..]);
      FirstPieceIsLeftmost(s[1..]);
      assert !SeparatorAt(s, 0);
      forall i | 1 <= i <= |r'| ensures !SeparatorAt(s, i) {
        assert !SeparatorAt(s[1..], i - 1);
        if i + |Separator| <= |s| {
          var t := s[1..];
          assert t[i - 1..i - 1 + |Separator|] == s[i..i + |Separator|];
        }
      }
      if r' != s[1..] {
        assert SeparatorAt(s[1..], |r'|);
        assert s[1..][|r'|..|r'| + |Separator|] == s[|r'| + 1..|r'| + 1 + |Separator|];
      }
    }
  }

  /** No separator starts inside a run of digits, since a separator begins with a space. */
  lemma FirstPieceOfDigits(d: string, rest: string)
    requires AllDigits(d)
    ensures FirstPiece(d + Separator + rest) == d
  {
    var s := d + Separator + rest;
    var r := FirstPiece(s);
    FirstPieceIsLeftmost(s);
    assert s[|d|..|d| + |Separator|] == Separator;
    assert SeparatorAt(s, |d|);
    forall i | 0 <= i < |d| ensures !SeparatorAt(s, i) {
      assert s[i] == d[i];
    }
    assert |r| == |d|;
    assert r == s[..|r|] == d;
  }

  /**
   * The rowid a handler reads from a selection: the first piece, when it
   * is a non-empty decimal numeral. An empty selection yields `None`.
   */
  function SelectedId(selection: string): (r: Option<nat>)
    ensures r.Some? <==> |FirstPiece(selection)| > 0 && AllDigits(FirstPiece(selection))
    ensures r.Some? ==> r.value < Power10(|FirstPiece(selection)|)
    ensures selection == [] ==> r == None
  {
    var piece := FirstPiece(selection);
    if piece != [] && AllDigits(piece) then Some(ParseDecimal(piece)) else None
  }

  /** A label `"<id> - <text>"`; selecting it gives back `id`. */
  function IdLabel(id: nat, text: string): (r: string)
    ensures SelectedId(r) == Some(id)
    ensures |r| >= |text| && r[|r| - |text|..] == text
  {
    FirstPieceOfDigits(Decimal(id), text);
    ParseDecimalOfDecimal(id);
    Decimal(id) + Separator + text
  }

  /** The file combobox label `"<id> - <file_name>"`. */
  function FileLabel(f: FileRow): string {
    IdLabel(f.id, f.fileName)
  }

  /** The user combobox label `"<id> - <first_name> <last_name>"`. */
  function UserLabel(u: UserRow): string {
    IdLabel(u.id, u.firstName + " " + u.lastName)
  }

  /** The file combobox values: one label per file row, each selecting that file. */
  function FileLabels(files: seq<FileRow>): (r: seq<string>)
    ensures |r| == |files|
    ensures forall i :: 0 <= i < |files| ==> SelectedId(r[i]) == Some(files[i].id)
  {
    seq(|files|, i requires 0 <= i < |files| => FileLabel(files[i]))
  }

  /** The user combobox values: one label per user row, each selecting that user. */
  function UserLabels(users: seq<UserRow>): (r: seq<string>)
    ensures |r| == |users|
    ensures forall i :: 0 <= i < |users| ==> SelectedId(r[i]) == Some(users[i].id)
  {
    seq(|users|, i requires 0 <= i < |users| => UserLabel(users[i]))
  }

  /** The return combobox label `"<id> - <first_name> <last_name> - <file_name> (Taken: <date_taken>)"`. */
  function LoanLabel(row: LoanRow): string {
    IdLabel(row.id, row.firstName + " " + row.lastName + Separator + row.fileName + " (Taken: " + row.dateTaken + ")")
  }

  /**
   * The return combobox values: one label per outstanding loan. The
   * file name may itself contain the separator, but the id still comes
   * back first.
   */
  function LoanLabels(rows: seq<LoanRow>): (r: seq<string>)
    ensures |r| == |rows|
    ensures forall i :: 0 <= i < |rows| ==> SelectedId(r[i]) == Some(rows[i].id)
  {
    seq(|rows|, i requires 0 <= i < |rows| => LoanLabel(rows[i]))
  }
}
