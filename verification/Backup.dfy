/** The backup file of tools/rcdiscover-gui/worker.cc: a calibration, a line of equals signs, a
    license; how it is written, and how it is taken apart again. */
module Backup {

  const SEPARATOR := "====================\n"

  function Trimmed(calib: string): string {
    if calib != [] && calib[|calib| - 1] == '\n' then calib[..|calib| - 1] else calib
  }

  function FileText(calib: string, license: string): string {
    (if calib == [] then [] else Trimmed(calib) + "\n") + SEPARATOR + license
  }

  method StoreBackup(calib: string, license: string) returns (out: string)
    ensures out == FileText(calib, license)
    ensures out == calib + (if calib == "" || calib[|calib| - 1] == '\n' then "" else "\n")
                   + "====================\n" + license
  {
    out := "";
    out := out + calib;
    if |calib| > 0 && calib[|calib| - 1] != '\n' {
      out := out + "\n";
    }
    assert out == if calib == [] then [] else Trimmed(calib) + "\n";
    out := out + SEPARATOR;
    out := out + license;
  }

  // ---- what the scanner looks for ----------------------------------------------------------

  predicate AllEquals(s: string, first: nat, last: nat) {
    first <= last <= |s| && forall j | first <= j < last :: s[j] == '='
  }

  /** The newline at `e` ends a line of equals signs. The line is the first one, and may then be
      empty; or it follows the newline at `b`. */
  predicate Separates(s: string, b: nat, e: nat) {
    && e < |s| && s[e] == '\n'
    && ((b == 0 && AllEquals(s, 0, e)) || (b + 1 < e && s[b] == '\n' && AllEquals(s, b + 1, e)))
  }

  ghost predicate FirstSeparator(s: string, b: nat, e: nat) {
    Separates(s, b, e) && forall b': nat, e': nat | Separates(s, b', e') :: e <= e'
  }

  ghost predicate NoSeparator(s: string) {
    forall b: nat, e: nat :: !Separates(s, b, e)
  }

  lemma {:induction false} SeparatorIsUnique(s: string, b: nat, e: nat, b': nat, e': nat)
    requires FirstSeparator(s, b, e) && FirstSeparator(s, b', e')
    ensures b == b' && e == e'
  {
  }

  datatype Recovered = Invalid | Backup(calib: string, license: string)

  /** The file is taken apart at its first separator; it is invalid if it has none, or if this is an
      empty line at its start. */
  ghost predicate Recovers(all: string, r: Recovered) {
    && (r.Backup? ==>
          exists b: nat, e: nat :: (FirstSeparator(all, b, e) && e > 0 && r == Backup(all[..b], all[e + 1..])))
    && (r.Invalid? ==> NoSeparator(all) || FirstSeparator(all, 0, 0))
  }

  /** The scanner, with its two positions; -1 stands for a line that is not the separator. */
  method ResetFromFile(all: string) returns (r: Recovered)
    ensures Recovers(all, r)
  {
    var i1: int, i2: int := 0, 0;
    var i := 0;
    while i < |all|
      invariant 0 <= i <= |all| && i2 == 0 && -1 <= i1 <= i
      invariant forall b: nat, e: nat | e < i :: !Separates(all, b, e)
      invariant i1 >= 0 ==> InLine(all, i1, i)
      invariant i1 < 0 ==> NotInLine(all, i)
    {
      if i1 >= 0 {
        if all[i] == '\n' {
          i2 := i;
          LineEnds(all, i1, i);
          break;
        } else if all[i] != '=' {
          i1 := -1;
        }
      } else if all[i] == '\n' && (if i + 1 < |all| then all[i + 1] else '\0') == '=' {
        i1 := i;
      }
      i := i + 1;
    }
    if i2 == 0 {
      return Invalid;
    }
    return Backup(all[..i1], all[i2 + 1..]);
  }

  /** Up to `i` there are only equals signs since `i1`, and there will be one at least unless the
      line is the first. */
  predicate InLine(all: string, i1: nat, i: nat) {
    i <= |all| &&
      ((i1 == 0 && AllEquals(all, 0, i))
       || (i1 < i && all[i1] == '\n' && AllEquals(all, i1 + 1, i) && i1 + 1 < |all| && all[i1 + 1] == '='))
  }

  /** No line of equals signs reaches from an earlier newline, or from the start, up to `i` and goes
      on there. */
  ghost predicate NotInLine(all: string, i: nat) {
    && i <= |all| && !AllEquals(all, 0, i)
    && forall b | 0 <= b < i && all[b] == '\n' && AllEquals(all, b + 1, i) ::
         b + 1 == i && !(i < |all| && all[i] == '=')
  }

  lemma {:induction false} LineEnds(all: string, i1: nat, i: nat)
    requires InLine(all, i1, i) && i < |all| && all[i] == '\n'
    requires forall b: nat, e: nat | e < i :: !Separates(all, b, e)
    ensures FirstSeparator(all, i1, i)
  {
  }

  // ---- writing, then reading ---------------------------------------------------------------

  /** The line from `first` to `last` is made of equals signs only. */
  predicate LineOfEquals(s: string, first: nat, last: nat) {
    && first < last <= |s| && AllEquals(s, first, last)
    && (first == 0 || s[first - 1] == '\n') && (last == |s| || s[last] == '\n')
  }

  /** The calibration can be told from the separator. */
  ghost predicate Separable(calib: string) {
    (calib == [] || calib[0] != '\n') && forall first: nat, last: nat :: !LineOfEquals(calib, first, last)
  }

  /** Where the separator line of the file begins and ends. */
  function Begin(calib: string): nat { |Trimmed(calib)| }
  function End(calib: string): nat { if calib == [] then 20 else |Trimmed(calib)| + 21 }

  lemma {:induction false} FileParts(calib: string, license: string)
    ensures var s := FileText(calib, license); var b, e := Begin(calib), End(calib);
      && e < |s| && s[..b] == Trimmed(calib) && s[e + 1..] == license && Separates(s, b, e)
      && (calib != [] ==> s[b] == '\n' && s[b + 1] == '=')
      && (calib == [] ==> s[0] == '=')
  {
  }

  /** In front of its end, the file's lines are those of the calibration. */
  lemma {:induction false} EarlierSeparator(calib: string, license: string, b: nat, e: nat)
    requires Separates(FileText(calib, license), b, e) && e < End(calib)
    ensures !Separable(calib)
  {
    var s := FileText(calib, license);
    FileParts(calib, license);
    var c := Trimmed(calib);
    assert forall j | 0 <= j < |c| :: s[j] == c[j] == calib[j];
    assert e <= |c|;
    if b == 0 && AllEquals(s, 0, e) {
      if e > 0 {
        assert LineOfEquals(calib, 0, e);
      }
    } else {
      assert LineOfEquals(calib, b + 1, e);
    }
  }

  /** The first separator of a file whose calibration is not separable comes too early. */
  lemma {:induction false} InseparableEndsEarly(calib: string, license: string) returns (b: nat, e: nat)
    requires !Separable(calib)
    ensures Separates(FileText(calib, license), b, e) && e < End(calib)
  {
    var s := FileText(calib, license);
    FileParts(calib, license);
    var c := Trimmed(calib);
    assert forall j | 0 <= j < |c| :: s[j] == c[j] == calib[j];
    if calib != [] && calib[0] == '\n' {
      b, e := 0, 0;
    } else {
      var first: nat, last: nat :| LineOfEquals(calib, first, last);
      assert last <= |c| && s[last] == '\n';
      b, e := if first == 0 then 0 else first - 1, last;
    }
  }

  lemma {:induction false} FirstExists(s: string, b: nat, e: nat) returns (b': nat, e': nat)
    requires Separates(s, b, e)
    ensures FirstSeparator(s, b', e') && e' <= e
    decreases e
  {
    if b1: nat, e1: nat :| Separates(s, b1, e1) && e1 < e {
      b', e' := FirstExists(s, b1, e1);
    } else {
      b', e' := b, e;
    }
  }

  /** Reading a backup gives back the calibration, but for a newline at its end, and the license,
      for every license, exactly if the calibration does not begin with a newline and has no line
      made of equals signs only. */
  lemma {:induction false} BackupRoundTrip(calib: string, license: string, r: Recovered)
    requires Recovers(FileText(calib, license), r)
    ensures r == Backup(Trimmed(calib), license) <==> Separable(calib)
    ensures Separable(calib) <==>
      && r.Backup? && r.license == license
      && calib == r.calib + if calib != "" && calib[|calib| - 1] == '\n' then "\n" else ""
  {
    assert calib == Trimmed(calib) + if calib != "" && calib[|calib| - 1] == '\n' then "\n" else "";
    hide Separable, FileText, Separates, Trimmed;
    var s := FileText(calib, license);
    FileParts(calib, license);
    var b, e := FirstExists(s, Begin(calib), End(calib));
    SeparatedAt(s, b, e, r);
    if Separable(calib) {
      assert e >= End(calib) by {
        if e < End(calib) { EarlierSeparator(calib, license, b, e); }
      }
      SeparatorIsUnique(s, b, e, Begin(calib), End(calib));
    } else {
      var b1, e1 := InseparableEndsEarly(calib, license);
      assert |s[e + 1..]| > |license|;
    }
  }

  /** The result is decided by the first separator. */
  lemma {:induction false} SeparatedAt(s: string, b: nat, e: nat, r: Recovered)
    requires FirstSeparator(s, b, e) && Recovers(s, r)
    ensures b <= e < |s|
    ensures r == if e > 0 then Backup(s[..b], s[e + 1..]) else Invalid
  {
  }
}
