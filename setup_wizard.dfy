/**
 * The custom layout the setup wizard offers: `orgCount` organisations, each a boss
 * followed by `workersPerOrg` workers, then the president and the authentication helper.
 * The table of panes is keyed by the pane's position, numbered from 0 in the order the
 * wizard writes the entries.
 */
module SetupWizard {
  import opened Text
  import TmuxUtils

  datatype PaneSpec = PaneSpec(name: string, displayName: string, organization: string, role: string,
                               agentType: string, workdir: string, description: string)

  datatype Layout = Layout(description: string, totalPanes: int, panes: map<int, PaneSpec>)

  // ---------------------------------------------------------------- naming

  /** The organisation number as written in names: decimal, zero-padded to two digits. */
  function OrgNum(org: nat): (r: string)
    ensures |r| >= 2 && forall k | 0 <= k < |r| :: IsDigit(r[k])
  {
    var digits := NatToString(org);
    var r := PadStart(digits, 2, '0');
    assert forall k | |r| - |digits| <= k < |r| :: r[k] == digits[k - (|r| - |digits|)];
    r
  }

  /** The organisation number can be read back from its padded form. */
  lemma OrgNumValue(org: nat)
    ensures DigitsValue(OrgNum(org)) == org
  {
    var r := OrgNum(org);
    DigitsRoundTrip(org);
    if org < 10 {
      assert r == ['0', DigitChar(org)];
      assert r[..1] == ['0'];
      assert DigitsValue(['0']) == 0 by { assert ['0'][..0] == []; }
    } else {
      assert NatToString(org) == NatToString(org / 10) + [DigitChar(org % 10)];
      assert r == NatToString(org);
    }
  }

  lemma OrgNumInjective(a: nat, b: nat)
    requires OrgNum(a) == OrgNum(b)
    ensures a == b
  {
    OrgNumValue(a);
    OrgNumValue(b);
  }

  /** Example: the padded numbers of organisations 1 and 12. */
  lemma FirstOrgNum()
    ensures OrgNum(1) == "01" && OrgNum(12) == "12"
  {
    assert NatToString(12) == NatToString(1) + [DigitChar(2)];
  }

  /**
   * The character `String.fromCharCode` makes of `code`: the code is reduced modulo
   * 2^16 (here by repeated subtraction) to a UTF-16 code unit; a code unit in the
   * surrogate range, which is not a character on its own, becomes U+FFFD.
   */
  function CodeUnitChar(code: nat): char
    decreases code
  {
    if code >= 0x1_0000 then CodeUnitChar(code - 0x1_0000)
    else if 0xD800 <= code < 0xE000 then '�'
    else code as char
  }

  /** The letter of the worker at `worker` (0 for the first): the code unit `97 + worker`. */
  function WorkerLetter(worker: nat): char {
    CodeUnitChar(97 + worker)
  }

  function BossPane(orgNum: string): PaneSpec {
    PaneSpec("boss" + orgNum, "ORG" + orgNum + "-Boss", "org-" + orgNum, "boss",
             "claude", ".", "組織" + orgNum + "統括")
  }

  function WorkerPane(orgNum: string, letter: char): PaneSpec {
    var upper := UpperChar(letter);
    PaneSpec("worker-" + [letter] + orgNum, "ORG" + orgNum + "-Worker-" + [upper], "org-" + orgNum, "worker",
             "claude", ".", "組織" + orgNum + "実装" + [upper])
  }

  const President := PaneSpec("president", "PRESIDENT", "main", "president", "claude", ".", "プロジェクト統括")

  const AuthHelper := PaneSpec("auth-helper", "AUTH-HELPER", "main", "auth-helper", "claude", ".", "認証サポート")

  // ---------------------------------------------------------------- the table

  /** How many times a counting loop up to `n` runs: none for a negative `n`. */
  function Runs(n: int): nat {
    if n < 0 then 0 else n
  }

  /** Positions each organisation takes: its boss and its workers. */
  function SlotsPerOrg(workersPerOrg: int): nat {
    Runs(workersPerOrg) + 1
  }

  /** Positions all organisations take; the president and the helper follow them. */
  function OrgPositions(orgCount: int, workersPerOrg: int): nat {
    Runs(orgCount) * SlotsPerOrg(workersPerOrg)
  }

  /** Slot 0 of an organisation is its boss, slot `j + 1` its worker `j`. */
  function OrgPane(org: nat, slot: nat): PaneSpec {
    if slot == 0 then BossPane(OrgNum(org)) else WorkerPane(OrgNum(org), WorkerLetter(slot - 1))
  }

  /** The organisation (from 1) holding position `k`, when each takes `slots` positions. */
  function OrgOf(k: nat, slots: nat): nat
    requires slots >= 1
    decreases k
  {
    if k < slots then 1 else OrgOf(k - slots, slots) + 1
  }

  /** The slot within its organisation of position `k`, when each takes `slots` positions. */
  function SlotOf(k: nat, slots: nat): nat
    requires slots >= 1
    decreases k
  {
    if k < slots then k else SlotOf(k - slots, slots)
  }

  /** The entry at an organisation position `k`. */
  function OrgPaneAt(k: nat, slots: nat): PaneSpec
    requires slots >= 1
  {
    OrgPane(OrgOf(k, slots), SlotOf(k, slots))
  }

  function PaneAt(orgCount: int, workersPerOrg: int, k: nat): PaneSpec {
    var n := OrgPositions(orgCount, workersPerOrg);
    if k < n then OrgPaneAt(k, SlotsPerOrg(workersPerOrg))
    else if k == n then President
    else AuthHelper
  }

  function LayoutPanes(orgCount: int, workersPerOrg: int): map<int, PaneSpec> {
    map k | 0 <= k < OrgPositions(orgCount, workersPerOrg) + 2 :: PaneAt(orgCount, workersPerOrg, k)
  }

  /**
   * The declared pane count: a boss and the workers per organisation, plus two. For
   * non-negative counts it is the number of positions the loops fill, plus the two
   * closing panes.
   */
  function TotalPanes(orgCount: int, workersPerOrg: int): (r: int)
    ensures orgCount >= 0 && workersPerOrg >= 0 ==> r == OrgPositions(orgCount, workersPerOrg) + 2
  {
    orgCount * (workersPerOrg + 1) + 2
  }

  const DescriptionHead := "カスタム構成 - "
  const DescriptionMiddle := "組織, 各"
  const DescriptionTail := "Worker"

  /** The description: both counts written in decimal between fixed words (`LayoutDescriptionNumerals`). */
  function LayoutDescription(orgCount: int, workersPerOrg: int): string {
    DescriptionHead + IntToString(orgCount) + DescriptionMiddle + IntToString(workersPerOrg) + DescriptionTail
  }

  /** The description is the fixed text around two numerals that read back as the two counts. */
  lemma LayoutDescriptionNumerals(orgCount: int, workersPerOrg: int)
    ensures exists a, b | IsNumeral(a) && IsNumeral(b) ::
              && LayoutDescription(orgCount, workersPerOrg) == DescriptionHead + a + DescriptionMiddle + b + DescriptionTail
              && NumeralValue(a) == orgCount && NumeralValue(b) == workersPerOrg
  {
    IntToStringValue(orgCount);
    IntToStringValue(workersPerOrg);
  }

  /** The layout `generateCustomLayout` returns (its positions: `LayoutKeys`). */
  function CustomLayout(orgCount: int, workersPerOrg: int): Layout {
    Layout(LayoutDescription(orgCount, workersPerOrg), TotalPanes(orgCount, workersPerOrg),
           LayoutPanes(orgCount, workersPerOrg))
  }

  /**
   * The table holds exactly the positions the organisations take plus two; for
   * non-negative counts those are `0 .. totalPanes - 1`.
   */
  lemma LayoutKeys(orgCount: int, workersPerOrg: int)
    ensures var l := CustomLayout(orgCount, workersPerOrg);
            forall k :: k in l.panes <==> 0 <= k < OrgPositions(orgCount, workersPerOrg) + 2
    ensures var l := CustomLayout(orgCount, workersPerOrg);
            orgCount >= 0 && workersPerOrg >= 0 ==> forall k :: k in l.panes <==> 0 <= k < l.totalPanes
  {
  }

  // ---------------------------------------------------------------- the generator

  /** Position `q * d + r` with `0 <= r < d` is slot `r` of organisation `q + 1`. */
  lemma {:induction false} PositionOf(q: nat, r: nat, d: nat)
    requires r < d
    ensures OrgOf(q * d + r, d) == q + 1 && SlotOf(q * d + r, d) == r
  {
    if q > 0 {
      MulAtLeastOne(q, d);
      assert q * d + r - d == (q - 1) * d + r;
      PositionOf(q - 1, r, d);
    }
  }

  /** Every position is its organisation's offset plus its slot, and the slot is below `d`. */
  lemma {:induction false} PositionSplit(k: nat, d: nat)
    requires d >= 1
    ensures k == (OrgOf(k, d) - 1) * d + SlotOf(k, d) && SlotOf(k, d) < d
  {
    if k >= d {
      PositionSplit(k - d, d);
      assert (OrgOf(k - d, d) - 1) * d + d == OrgOf(k - d, d) * d;
    }
  }

  /** Two different positions differ in their organisation or in their slot. */
  lemma PositionsDistinct(i: nat, j: nat, d: nat)
    requires d >= 1 && i != j
    ensures OrgOf(i, d) != OrgOf(j, d) || SlotOf(i, d) != SlotOf(j, d)
  {
    PositionSplit(i, d);
    PositionSplit(j, d);
  }

  /** A multiple of `d` strictly between `-d` and `d` is zero times `d`. */
  lemma MulOutsideBand(a: int, d: int)
    requires d >= 1
    ensures a == 0 || a * d >= d || a * d <= -d
  {
    if a >= 1 {
      MulAtLeastOne(a, d);
    } else if a <= -1 {
      MulAtLeastOne(-a, d);
      assert (-a) * d == -(a * d);
    }
  }

  lemma MulAtLeastOne(a: int, d: int)
    requires a >= 1 && d >= 0
    ensures a * d >= d
  {
  }

  /** Fills the table organisation by organisation, as the wizard does, then adds the two closing panes. */
  method GenerateCustomLayout(orgCount: int, workersPerOrg: int) returns (layout: Layout)
    ensures layout == CustomLayout(orgCount, workersPerOrg)
  {
    ghost var slots := SlotsPerOrg(workersPerOrg);
    var panes: map<int, PaneSpec> := map[];
    var paneIndex := 0;
    var org := 1;
    while org <= orgCount
      invariant 1 <= org <= Runs(orgCount) + 1
      invariant paneIndex == (org - 1) * slots
      invariant forall k :: k in panes <==> 0 <= k < paneIndex
      invariant forall k | k in panes :: k >= 0 && panes[k] == OrgPaneAt(k, slots)
    {
      var orgNum := OrgNum(org);
      PositionOf(org - 1, 0, slots);
      assert paneIndex !in panes;
      panes := panes[paneIndex := BossPane(orgNum)];
      paneIndex := paneIndex + 1;
      var worker := 0;
      while worker < workersPerOrg
        invariant 0 <= worker <= Runs(workersPerOrg)
        invariant paneIndex == (org - 1) * slots + 1 + worker
        invariant forall k :: k in panes <==> 0 <= k < paneIndex
        invariant forall k | k in panes :: k >= 0 && panes[k] == OrgPaneAt(k, slots)
      {
        var letter := WorkerLetter(worker);
        PositionOf(org - 1, 1 + worker, slots);
        assert paneIndex !in panes;
        panes := panes[paneIndex := WorkerPane(orgNum, letter)];
        paneIndex := paneIndex + 1;
        worker := worker + 1;
      }
      assert paneIndex == org * slots;
      org := org + 1;
    }
    assert paneIndex == OrgPositions(orgCount, workersPerOrg);
    panes := panes[paneIndex := President];
    paneIndex := paneIndex + 1;
    panes := panes[paneIndex := AuthHelper];
    layout := Layout(LayoutDescription(orgCount, workersPerOrg), orgCount * (workersPerOrg + 1) + 2, panes);
    assert panes == LayoutPanes(orgCount, workersPerOrg);
  }

  // ---------------------------------------------------------------- properties

  /**
   * The declared count matches the table exactly when there are no organisations, when
   * both counts are sensible, or in the degenerate case of negative organisations with
   * `-1` workers, whose product is zero as well.
   */
  lemma TotalPanesAgreesIff(orgCount: int, workersPerOrg: int)
    ensures TotalPanes(orgCount, workersPerOrg) == OrgPositions(orgCount, workersPerOrg) + 2
            <==> || orgCount == 0
                 || (orgCount > 0 && workersPerOrg >= 0)
                 || (orgCount < 0 && workersPerOrg == -1)
  {
    var p := orgCount * (workersPerOrg + 1);
    if orgCount > 0 && workersPerOrg < 0 {
      assert workersPerOrg + 1 <= 0;
      if workersPerOrg + 1 < 0 {
        MulAtLeastOne(orgCount, -(workersPerOrg + 1));
        assert orgCount * (-(workersPerOrg + 1)) == -p;
      }
      assert OrgPositions(orgCount, workersPerOrg) == orgCount;
    } else if orgCount < 0 && workersPerOrg != -1 {
      assert OrgPositions(orgCount, workersPerOrg) == 0;
      MulOutsideBand(workersPerOrg + 1, -orgCount);
      assert (workersPerOrg + 1) * (-orgCount) == -p;
    }
  }

  /**
   * A negative worker count adds no workers but still lowers the declared count: two
   * organisations with `-1` workers are written as four panes while `totalPanes` says two.
   */
  lemma NegativeWorkersMiscounted()
    ensures var l := CustomLayout(2, -1);
            l.totalPanes == 2 && (forall k :: k in l.panes <==> 0 <= k < 4)
  {
    assert OrgPositions(2, -1) == 2;
  }

  /** Slot `slot` of organisation `org` (from 1) sits at `(org-1)*slots + slot`. */
  lemma OrgSlot(orgCount: int, workersPerOrg: int, org: nat, slot: nat)
    requires 1 <= org <= orgCount && slot < SlotsPerOrg(workersPerOrg)
    ensures var i := (org - 1) * SlotsPerOrg(workersPerOrg) + slot;
            var panes := LayoutPanes(orgCount, workersPerOrg);
            i in panes && panes[i] == OrgPane(org, slot)
  {
    LayoutPaneAtOrgSlot(orgCount, workersPerOrg, org, slot);
    OrgPaneAtOrgSlot(workersPerOrg, org, slot);
  }

  /** The position of slot `slot` of organisation `org` is a key mapped to its organisation entry. */
  lemma LayoutPaneAtOrgSlot(orgCount: int, workersPerOrg: int, org: nat, slot: nat)
    requires 1 <= org <= orgCount && slot < SlotsPerOrg(workersPerOrg)
    ensures var i := (org - 1) * SlotsPerOrg(workersPerOrg) + slot;
            var panes := LayoutPanes(orgCount, workersPerOrg);
            i in panes && panes[i] == OrgPaneAt(i, SlotsPerOrg(workersPerOrg))
  {
    OrgPositionBound(orgCount, workersPerOrg, org, slot);
  }

  /** The position of slot `slot` of organisation `org` lies among the organisation positions. */
  lemma OrgPositionBound(orgCount: int, workersPerOrg: int, org: nat, slot: nat)
    requires 1 <= org <= orgCount && slot < SlotsPerOrg(workersPerOrg)
    ensures 0 <= (org - 1) * SlotsPerOrg(workersPerOrg) + slot < OrgPositions(orgCount, workersPerOrg)
  {
    MulLess(org - 1, orgCount, SlotsPerOrg(workersPerOrg));
  }

  /** The organisation entry at that position is slot `slot` of organisation `org`. */
  lemma OrgPaneAtOrgSlot(workersPerOrg: int, org: nat, slot: nat)
    requires 1 <= org && slot < SlotsPerOrg(workersPerOrg)
    ensures var i := (org - 1) * SlotsPerOrg(workersPerOrg) + slot;
            OrgPaneAt(i, SlotsPerOrg(workersPerOrg)) == OrgPane(org, slot)
  {
    var i := (org - 1) * SlotsPerOrg(workersPerOrg) + slot;
    PositionOf(org - 1, slot, SlotsPerOrg(workersPerOrg));
    assert OrgOf(i, SlotsPerOrg(workersPerOrg)) == org && SlotOf(i, SlotsPerOrg(workersPerOrg)) == slot;
  }

  /** The boss of organisation `org` (from 1) opens its block of positions. */
  lemma BossPosition(orgCount: int, workersPerOrg: int, org: nat)
    requires 1 <= org <= orgCount
    ensures var i := (org - 1) * SlotsPerOrg(workersPerOrg);
            var panes := CustomLayout(orgCount, workersPerOrg).panes;
            i in panes && panes[i] == BossPane(OrgNum(org))
            && panes[i].name == "boss" + OrgNum(org) && panes[i].role == "boss"
  {
    OrgSlot(orgCount, workersPerOrg, org, 0);
    assert (org - 1) * SlotsPerOrg(workersPerOrg) + 0 == (org - 1) * SlotsPerOrg(workersPerOrg);
  }

  lemma MulLess(a: nat, b: nat, d: nat)
    requires a < b && d >= 1
    ensures 0 <= a * d && a * d + d <= b * d
  {
    MulAtLeastOne(b - a, d);
    assert b * d - a * d == (b - a) * d;
    if a >= 1 {
      MulAtLeastOne(a, d);
    }
  }

  /** Worker `worker` (from 0) of organisation `org` follows the boss, lettered in order. */
  lemma WorkerPosition(orgCount: int, workersPerOrg: int, org: nat, worker: nat)
    requires 1 <= org <= orgCount && worker < workersPerOrg
    ensures var i := (org - 1) * SlotsPerOrg(workersPerOrg) + 1 + worker;
            var panes := CustomLayout(orgCount, workersPerOrg).panes;
            i in panes && panes[i] == WorkerPane(OrgNum(org), WorkerLetter(worker))
            && panes[i].name == "worker-" + [WorkerLetter(worker)] + OrgNum(org)
            && panes[i].organization == "org-" + OrgNum(org) && panes[i].role == "worker"
  {
    OrgSlot(orgCount, workersPerOrg, org, 1 + worker);
    assert (org - 1) * SlotsPerOrg(workersPerOrg) + (1 + worker)
           == (org - 1) * SlotsPerOrg(workersPerOrg) + 1 + worker;
  }

  /** The president and then the authentication helper close the table, both in `main`. */
  lemma ClosingPanes(orgCount: int, workersPerOrg: int)
    ensures var n := OrgPositions(orgCount, workersPerOrg);
            var panes := CustomLayout(orgCount, workersPerOrg).panes;
            n in panes && n + 1 in panes && n + 2 !in panes
            && panes[n] == President && panes[n + 1] == AuthHelper
            && panes[n].organization == "main" && panes[n + 1].organization == "main"
  {
  }

  /** Every pane runs Claude in the project directory; organisation positions hold bosses and workers only. */
  lemma EveryPaneClaude(orgCount: int, workersPerOrg: int)
    ensures var n := OrgPositions(orgCount, workersPerOrg);
            var panes := CustomLayout(orgCount, workersPerOrg).panes;
            forall k | k in panes ::
              && panes[k].agentType == "claude" && panes[k].workdir == "."
              && (k < n <==> panes[k].role == "boss" || panes[k].role == "worker")
  {
  }

  lemma BossNamesDiffer(a: nat, b: nat)
    requires a != b
    ensures BossPane(OrgNum(a)).name != BossPane(OrgNum(b)).name
  {
    var na, nb := BossPane(OrgNum(a)).name, BossPane(OrgNum(b)).name;
    assert na[4..] == OrgNum(a) && nb[4..] == OrgNum(b);
    OrgNumValue(a);
    OrgNumValue(b);
  }

  /** The first 26 workers are lettered `a` to `z` in order: worker `k` gets `'a' + k`. */
  lemma WorkerLetterCode(worker: nat)
    requires worker < 26
    ensures WorkerLetter(worker) as int == 'a' as int + worker
    ensures 'a' <= WorkerLetter(worker) <= 'z'
  {
  }

  /** The first 26 workers get 26 different letters. */
  lemma WorkerLettersDiffer(x: nat, y: nat)
    requires x < 26 && y < 26 && x != y
    ensures WorkerLetter(x) != WorkerLetter(y)
  {
    WorkerLetterCode(x);
    WorkerLetterCode(y);
  }

  lemma WorkerNamesDiffer(a: nat, x: nat, b: nat, y: nat)
    requires x < 26 && y < 26 && (a != b || x != y)
    ensures WorkerPane(OrgNum(a), WorkerLetter(x)).name != WorkerPane(OrgNum(b), WorkerLetter(y)).name
  {
    var na, nb := WorkerPane(OrgNum(a), WorkerLetter(x)).name, WorkerPane(OrgNum(b), WorkerLetter(y)).name;
    assert na[7] == WorkerLetter(x) && nb[7] == WorkerLetter(y);
    assert na[8..] == OrgNum(a) && nb[8..] == OrgNum(b);
    if x != y {
      WorkerLettersDiffer(x, y);
    } else {
      OrgNumValue(a);
      OrgNumValue(b);
    }
  }

  /** Distinct organisation entries have distinct names while workers are lettered a to z. */
  lemma OrgPaneNamesDiffer(a: nat, s: nat, b: nat, t: nat)
    requires s <= 26 && t <= 26
    requires a != b || s != t
    ensures OrgPane(a, s).name != OrgPane(b, t).name
  {
    if s == 0 && t == 0 {
      BossNamesDiffer(a, b);
    } else if s != 0 && t != 0 {
      WorkerNamesDiffer(a, s - 1, b, t - 1);
    } else {
      assert OrgPane(a, s).name[0] != OrgPane(b, t).name[0];
    }
  }

  /** Organisation entries are named `boss…` or `worker-…`, unlike the two closing panes. */
  lemma OrgPaneNotClosing(k: nat, slots: nat)
    requires slots >= 1
    ensures OrgPaneAt(k, slots).name != President.name && OrgPaneAt(k, slots).name != AuthHelper.name
  {
    var name := OrgPaneAt(k, slots).name;
    assert name[0] == 'b' || name[0] == 'w';
  }

  /** Distinct organisation positions carry distinct names while workers are lettered a to z. */
  lemma OrgPositionNamesDiffer(i: nat, j: nat, slots: nat)
    requires 1 <= slots <= 27 && i != j
    ensures OrgPaneAt(i, slots).name != OrgPaneAt(j, slots).name
  {
    PositionsDistinct(i, j, slots);
    PositionSplit(i, slots);
    PositionSplit(j, slots);
    OrgPaneNamesDiffer(OrgOf(i, slots), SlotOf(i, slots), OrgOf(j, slots), SlotOf(j, slots));
  }

  /** With at most 26 workers per organisation, no two panes of the layout share a name. */
  lemma NamesDistinct(orgCount: int, workersPerOrg: int, i: nat, j: nat)
    requires workersPerOrg <= 26
    requires var panes := CustomLayout(orgCount, workersPerOrg).panes; i in panes && j in panes && i != j
    ensures var panes := CustomLayout(orgCount, workersPerOrg).panes; panes[i].name != panes[j].name
  {
    var n := OrgPositions(orgCount, workersPerOrg);
    var slots := SlotsPerOrg(workersPerOrg);
    if i < n && j < n {
      OrgPositionNamesDiffer(i, j, slots);
    } else if i < n {
      OrgPaneNotClosing(i, slots);
    } else if j < n {
      OrgPaneNotClosing(j, slots);
    }
  }

  /** A numeral never holds the first character of the word that follows it. */
  lemma NumeralStopsAt(a: string, c: char)
    requires IsNumeral(a) && c != '-' && !IsDigit(c)
    ensures c !in a
  {
    forall k | 0 <= k < |a| ensures a[k] != c {
      if a[0] == '-' && k >= 1 {
        assert a[1..][k - 1] == a[k];
      }
    }
  }

  /** Two texts each followed by a part opening with a character neither holds split alike. */
  lemma SplitAtStop(a: string, x: string, b: string, y: string)
    requires a + x == b + y
    requires x != [] && y != [] && x[0] == y[0] && x[0] !in a && x[0] !in b
    ensures a == b && x == y
  {
    var s := a + x;
    assert s[..|a|] == a && s[|a|] == x[0];
    TmuxUtils.IndexOfFirst(s, x[0], |a|);
    assert s == b + y && s[..|b|] == b && s[|b|] == x[0];
    TmuxUtils.IndexOfFirst(s, x[0], |b|);
    assert a == s[..|a|] && b == s[..|b|];
  }

  lemma CancelPrefix(h: string, u: string, v: string)
    requires h + u == h + v
    ensures u == v
  {
    assert u == (h + u)[|h|..] && v == (h + v)[|h|..];
  }

  lemma CancelSuffix(u: string, v: string, t: string)
    requires u + t == v + t
    ensures u == v
  {
    assert u == (u + t)[..|u|] && v == (v + t)[..|v|];
  }

  /** The numerals of two descriptions that are equal are equal. */
  lemma DescriptionNumerals(a1: string, b1: string, a2: string, b2: string)
    requires IsNumeral(a1) && IsNumeral(b1) && IsNumeral(a2) && IsNumeral(b2)
    requires DescriptionHead + a1 + DescriptionMiddle + b1 + DescriptionTail
             == DescriptionHead + a2 + DescriptionMiddle + b2 + DescriptionTail
    ensures a1 == a2 && b1 == b2
  {
    var x1 := DescriptionMiddle + (b1 + DescriptionTail);
    var x2 := DescriptionMiddle + (b2 + DescriptionTail);
    assert DescriptionHead + a1 + DescriptionMiddle + b1 + DescriptionTail == DescriptionHead + (a1 + x1);
    assert DescriptionHead + a2 + DescriptionMiddle + b2 + DescriptionTail == DescriptionHead + (a2 + x2);
    CancelPrefix(DescriptionHead, a1 + x1, a2 + x2);
    NumeralStopsAt(a1, DescriptionMiddle[0]);
    NumeralStopsAt(a2, DescriptionMiddle[0]);
    SplitAtStop(a1, x1, a2, x2);
    CancelPrefix(DescriptionMiddle, b1 + DescriptionTail, b2 + DescriptionTail);
    CancelSuffix(b1, b2, DescriptionTail);
  }

  /** The description determines both counts: it names them so that they read back. */
  lemma DescriptionNamesCounts(o1: int, w1: int, o2: int, w2: int)
    requires LayoutDescription(o1, w1) == LayoutDescription(o2, w2)
    ensures o1 == o2 && w1 == w2
  {
    IntToStringValue(o1); IntToStringValue(w1); IntToStringValue(o2); IntToStringValue(w2);
    DescriptionNumerals(IntToString(o1), IntToString(w1), IntToString(o2), IntToString(w2));
  }

}
