/** The pure rules inside the main page component: the share-selection
    list the reconstruction form keeps, the paired owner and public-key
    fields of the split form, and the checks both forms make before they
    call the registry contract.

    React state becomes explicit values passed in and returned; the
    registry contract, the wallet and `ethers.utils.isAddress` are left
    out or taken as parameters. */
module App {
  import opened Wrappers

  // ------------------------------------------------------------ decimal text

  /** `${n}` for a non-negative integer. */
  function Decimal(n: nat): (s: string)
    ensures |s| > 0 && forall i :: 0 <= i < |s| ==> '0' <= s[i] <= '9'
  {
    var d := [(n % 10) as char + '0'];
    if n < 10 then d else Decimal(n / 10) + d
  }

  /** The number a string of decimal digits denotes, most significant
      digit first. */
  function DigitsValue(s: string): nat
    requires forall i :: 0 <= i < |s| ==> '0' <= s[i] <= '9'
  {
    if |s| == 0 then 0 else DigitsValue(s[..|s| - 1]) * 10 + (s[|s| - 1] - '0') as nat
  }

  /** `${n}` names `n`: its digits read back give `n`, and it has no
      leading zero unless it is `0` itself. */
  lemma {:induction false} DecimalDenotes(n: nat)
    ensures DigitsValue(Decimal(n)) == n
    ensures Decimal(n)[0] == '0' <==> n == 0
    ensures n == 0 <==> Decimal(n) == "0"
  {
    var s := Decimal(n);
    var d := [(n % 10) as char + '0'];
    if n >= 10 {
      DecimalDenotes(n / 10);
      assert s == Decimal(n / 10) + d;
      assert s[..|s| - 1] == Decimal(n / 10);
      assert s[0] == Decimal(n / 10)[0];
    } else {
      assert s == d;
    }
  }

  // ------------------------------------------------------------ share selection

  /** One entry of `sharesToUse`. Share ids are kept as the integers
      `parseInt` makes of them. */
  datatype Selection = Selection(secretId: string, shareId: nat)

  /** No entry occurs twice. */
  predicate NoDuplicates<T(==)>(s: seq<T>)
  {
    forall i, j :: 0 <= i < j < |s| ==> s[i] != s[j]
  }

  /** `findIndex` for an equal entry: -1 when there is none, otherwise the
      position of the first one. */
  function FindIndex(list: seq<Selection>, p: Selection): (r: int)
    ensures r == -1 <==> p !in list
    ensures r != -1 ==> 0 <= r < |list| && list[r] == p && p !in list[..r]
  {
    if |list| == 0 then -1
    else if list[0] == p then 0
    else
      var k := FindIndex(list[1..], p);
      if k == -1 then -1
      else
        assert list[..k + 1] == [list[0]] + list[1..][..k];
        k + 1
  }

  /** `isShareSelected(secretId, shareId)`: `some` entry equals the pair. */
  function IsShareSelected(list: seq<Selection>, secretId: string, shareId: nat): (b: bool)
    ensures b <==> Selection(secretId, shareId) in list
  {
    if |list| == 0 then false
    else (list[0].secretId == secretId && list[0].shareId == shareId) || IsShareSelected(list[1..], secretId, shareId)
  }

  /** `toggleShareSelection(secretId, shareId)`: splice out the first equal
      entry if there is one, otherwise push the pair at the end. */
  function ToggleShareSelection(list: seq<Selection>, secretId: string, shareId: nat): (r: seq<Selection>)
    ensures var p := Selection(secretId, shareId);
      p in list ==> multiset(r) == multiset(list) - multiset{p} && |r| == |list| - 1
    ensures var p := Selection(secretId, shareId);
      p !in list ==> r == list + [p]
  {
    var p := Selection(secretId, shareId);
    var i := FindIndex(list, p);
    if i >= 0 then
      assert list == list[..i] + [p] + list[i + 1..];
      list[..i] + list[i + 1..]
    else list + [p]
  }

  /** Removing the first occurrence keeps every other entry, in order: the
      result is the list with exactly position `FindIndex` taken out. */
  lemma ToggleRemovesFirstOccurrence(list: seq<Selection>, secretId: string, shareId: nat)
    requires Selection(secretId, shareId) in list
    ensures var i := FindIndex(list, Selection(secretId, shareId));
      var r := ToggleShareSelection(list, secretId, shareId);
      |r| == |list| - 1
      && (forall k :: 0 <= k < i ==> r[k] == list[k])
      && (forall k :: i <= k < |r| ==> r[k] == list[k + 1])
  {
    var i := FindIndex(list, Selection(secretId, shareId));
    ToggleSplices(list, secretId, shareId, i);
    SpliceShifts(list, i);
  }

  lemma ToggleSplices(list: seq<Selection>, secretId: string, shareId: nat, i: int)
    requires Selection(secretId, shareId) in list && i == FindIndex(list, Selection(secretId, shareId))
    ensures 0 <= i < |list| && ToggleShareSelection(list, secretId, shareId) == list[..i] + list[i + 1..]
  {
  }

  /** Taking out position `i` shifts every later entry down by one. */
  lemma SpliceShifts<T>(list: seq<T>, i: nat)
    requires i < |list|
    ensures var r := list[..i] + list[i + 1..];
      |r| == |list| - 1
      && (forall k :: 0 <= k < i ==> r[k] == list[k])
      && (forall k :: i <= k < |r| ==> r[k] == list[k + 1])
  {
  }

  /** On a duplicate-free list, toggling flips the pair's membership, keeps
      every other pair's membership, and keeps the list duplicate-free. */
  lemma ToggleFlips(list: seq<Selection>, secretId: string, shareId: nat)
    requires NoDuplicates(list)
    ensures var r := ToggleShareSelection(list, secretId, shareId);
      NoDuplicates(r)
      && (IsShareSelected(r, secretId, shareId) <==> !IsShareSelected(list, secretId, shareId))
      && forall q :: q != Selection(secretId, shareId) ==> (q in r <==> q in list)
  {
    var p := Selection(secretId, shareId);
    var r := ToggleShareSelection(list, secretId, shareId);
    if p in list {
      var i := FindIndex(list, p);
      ToggleRemovesFirstOccurrence(list, secretId, shareId);
      forall a, b | 0 <= a < b < |r|
        ensures r[a] != r[b]
      {
        var a' := if a < i then a else a + 1;
        var b' := if b < i then b else b + 1;
        assert r[a] == list[a'] && r[b] == list[b'] && a' < b';
      }
      forall a | 0 <= a < |r|
        ensures r[a] != p
      {
        var a' := if a < i then a else a + 1;
        assert r[a] == list[a'] && a' != i;
      }
      forall q | q != p
        ensures q in r <==> q in list
      {
        if q in list {
          var k :| 0 <= k < |list| && list[k] == q;
          assert k != i;
          if k < i { assert r[k] == q; } else { assert r[k - 1] == q; }
        }
      }
    } else {
      forall a, b | 0 <= a < b < |r|
        ensures r[a] != r[b]
      {
        if b == |list| { assert r[a] == list[a]; }
      }
    }
  }

  /** Ticking a box and unticking it again restores the exact list. */
  lemma ToggleTwice(list: seq<Selection>, secretId: string, shareId: nat)
    requires !IsShareSelected(list, secretId, shareId)
    ensures ToggleShareSelection(ToggleShareSelection(list, secretId, shareId), secretId, shareId) == list
  {
    var p := Selection(secretId, shareId);
    var once := list + [p];
    assert FindIndex(once, p) == |list| by {
      FindAfter(list, p);
    }
    assert once[..|list|] == list;
  }

  /** In `list + [p]` with `p` absent from `list`, the first `p` is the last entry. */
  lemma {:induction false} FindAfter(list: seq<Selection>, p: Selection)
    requires p !in list
    ensures FindIndex(list + [p], p) == |list|
  {
    if |list| > 0 {
      assert (list + [p])[1..] == list[1..] + [p];
      FindAfter(list[1..], p);
    }
  }

  // ------------------------------------------------------------ owner fields

  /** A non-empty run of decimal digits. */
  predicate IsDigits(s: string)
  {
    |s| > 0 && forall i :: 0 <= i < |s| ==> '0' <= s[i] <= '9'
  }

  type Digits = s: string | IsDigits(s) witness "0"

  /** A count field of the split form. It starts as a number; once the user
      edits it, the number input stores `e.target.value`, which is text. */
  datatype CountField = Number(n: int) | Edited(text: Digits)

  /** The number a count field holds, as `Number(…)`, `parseInt` and the
      numeric comparisons read it. */
  function Count(v: CountField): (n: int)
    ensures v.Edited? ==> n >= 0
  {
    match v
    case Number(n) => n
    case Edited(t) => DigitsValue(t)
  }

  /** `${v}`: a number is written in decimal, text as it is. */
  function Shown(v: CountField): string
  {
    match v
    case Number(n) => if n < 0 then "-" + Decimal(-n) else Decimal(n)
    case Edited(t) => t
  }

  /** The split form's inputs. */
  datatype SplitForm = SplitForm(
    secret: string,
    parts: CountField,
    threshold: CountField,
    description: string,
    ownerAddresses: seq<string>,
    recipientPublicKeys: seq<string>)

  /** One owner row per public-key row. */
  predicate Paired(f: SplitForm)
  {
    |f.ownerAddresses| == |f.recipientPublicKeys|
  }

  /** `addOwnerAddress()`: an empty row at the end of both lists. */
  function AddOwnerAddress(f: SplitForm): (g: SplitForm)
    ensures |g.ownerAddresses| == |f.ownerAddresses| + 1 && g.ownerAddresses[..|f.ownerAddresses|] == f.ownerAddresses
    ensures |g.recipientPublicKeys| == |f.recipientPublicKeys| + 1 && g.recipientPublicKeys[..|f.recipientPublicKeys|] == f.recipientPublicKeys
    ensures Paired(f) ==> Paired(g)
  {
    f.(ownerAddresses := f.ownerAddresses + [""], recipientPublicKeys := f.recipientPublicKeys + [""])
  }

  /** The start `splice` resolves a relative index to. */
  function SpliceStart(index: int, n: nat): (k: nat)
    ensures k <= n
  {
    if index < 0 then (if n + index > 0 then n + index else 0)
    else if index < n then index else n
  }

  /** `a.splice(index, 1)` on a copy: at most one entry goes. */
  function SpliceOne<T>(a: seq<T>, index: int): (r: seq<T>)
    ensures SpliceStart(index, |a|) < |a| ==> |r| == |a| - 1
    ensures SpliceStart(index, |a|) == |a| ==> r == a
  {
    var k := SpliceStart(index, |a|);
    if k < |a| then a[..k] + a[k + 1..] else a
  }

  /** `removeOwnerAddress(index)`: the same splice on both lists. */
  function RemoveOwnerAddress(f: SplitForm, index: int): (g: SplitForm)
    ensures Paired(f) ==> Paired(g)
    ensures 0 <= index < |f.ownerAddresses| ==> |g.ownerAddresses| == |f.ownerAddresses| - 1
    ensures Paired(f) && 0 <= index < |f.ownerAddresses| ==>
      forall k :: 0 <= k < |g.ownerAddresses| ==>
        var from := if k < index then k else k + 1;
        g.ownerAddresses[k] == f.ownerAddresses[from] && g.recipientPublicKeys[k] == f.recipientPublicKeys[from]
  {
    f.(ownerAddresses := SpliceOne(f.ownerAddresses, index), recipientPublicKeys := SpliceOne(f.recipientPublicKeys, index))
  }

  /** Removing the row just added gives the form back. */
  lemma RemoveUndoesAdd(f: SplitForm)
    requires Paired(f)
    ensures RemoveOwnerAddress(AddOwnerAddress(f), |f.ownerAddresses|) == f
  {
    var g := AddOwnerAddress(f);
    assert g.ownerAddresses[..|f.ownerAddresses|] == f.ownerAddresses;
    assert g.recipientPublicKeys[..|f.recipientPublicKeys|] == f.recipientPublicKeys;
  }

  /** The reset after a successful split: the secret, counts, description
      and owner rows go back to their initial values; the public-key rows
      are left as they were. */
  function ResetForm(f: SplitForm): (g: SplitForm)
    ensures g.secret == "" && g.parts == Number(3) && g.threshold == Number(2) && g.description == ""
    ensures g.ownerAddresses == [""] && g.recipientPublicKeys == f.recipientPublicKeys
  {
    f.(secret := "", parts := Number(3), threshold := Number(2), description := "", ownerAddresses := [""])
  }

  /** A form that had other than one key row leaves the reset unpaired, and
      removing the one owner row afterwards still leaves key rows behind. */
  lemma ResetUnpairs(f: SplitForm)
    requires |f.recipientPublicKeys| != 1
    ensures !Paired(ResetForm(f))
    ensures |f.recipientPublicKeys| > 1 ==>
      var g := RemoveOwnerAddress(ResetForm(f), 0);
      g.ownerAddresses == [] && g.recipientPublicKeys == f.recipientPublicKeys[1..]
  {
  }

  // ------------------------------------------------------------ split checks

  const NotConnected := "Registry contract not connected"
  const NoSecret := "Please enter a secret"
  const NoKeys := "Please retrieve or generate encryption keys first"
  const TooFewParts := "Parts must be at least 2"
  const BadThreshold := "Threshold must be at least 2 and not greater than parts"

  function OwnerCountMessage(parts: CountField): string
  {
    "You must specify exactly " + Shown(parts) + " owners or none (default to caller)"
  }

  /** `ownerAddresses.filter(addr => addr && isAddress(addr))`. */
  function FilterOwners(owners: seq<string>, isAddress: string -> bool): (r: seq<string>)
    ensures |r| <= |owners|
    ensures forall a :: a in r <==> a in owners && a != "" && isAddress(a)
  {
    if |owners| == 0 then []
    else
      var rest := FilterOwners(owners[1..], isAddress);
      assert forall a :: a in owners <==> a == owners[0] || a in owners[1..];
      if owners[0] != "" && isAddress(owners[0]) then [owners[0]] + rest else rest
  }

  /** JavaScript's `a < b` on two strings: code unit by code unit, a proper
      prefix coming first (ECMA-262 section 7.2.13). */
  predicate TextLess(a: string, b: string)
    decreases |a|
  {
    if |b| == 0 then false
    else if |a| == 0 then true
    else if a[0] != b[0] then a[0] < b[0]
    else TextLess(a[1..], b[1..])
  }

  /** `threshold > parts` as written: two edited fields are both text and
      are compared as strings; otherwise the comparison is numeric. */
  predicate GreaterAsWritten(threshold: CountField, parts: CountField)
  {
    if threshold.Edited? && parts.Edited? then TextLess(parts.text, threshold.text)
    else Count(threshold) > Count(parts)
  }

  /** The checks `handleSplitSecret` makes before it encrypts, in order,
      with `greater` deciding `threshold > parts`. On success, the owner
      list the contract is called with: the valid owners when there are
      exactly `parts` of them, none otherwise. */
  function SplitChecks(connected: bool, f: SplitForm, publicKey: string, isAddress: string -> bool, greater: bool)
    : (r: Result<seq<string>, string>)
    ensures r.Success? <==> connected && f.secret != "" && publicKey != "" && Count(f.parts) >= 2
                            && Count(f.threshold) >= 2 && !greater
                            && (|FilterOwners(f.ownerAddresses, isAddress)| == 0 || |FilterOwners(f.ownerAddresses, isAddress)| == Count(f.parts))
    ensures r.Success? ==> r.value == [] || (|r.value| == Count(f.parts) && forall a :: a in r.value ==> a in f.ownerAddresses && isAddress(a))
    ensures !connected ==> r == Failure(NotConnected)
    ensures connected && f.secret == "" ==> r == Failure(NoSecret)
    ensures connected && f.secret != "" && publicKey == "" ==> r == Failure(NoKeys)
    ensures connected && f.secret != "" && publicKey != "" && Count(f.parts) < 2 ==> r == Failure(TooFewParts)
    ensures (connected && f.secret != "" && publicKey != "" && Count(f.parts) >= 2 && (Count(f.threshold) < 2 || greater))
            ==> r == Failure(BadThreshold)
    ensures r.Failure? && r.error !in {NotConnected, NoSecret, NoKeys, TooFewParts, BadThreshold}
            ==> r.error == OwnerCountMessage(f.parts)
  {
    if !connected then Failure(NotConnected)
    else if f.secret == "" then Failure(NoSecret)
    else if publicKey == "" then Failure(NoKeys)
    else if Count(f.parts) < 2 then Failure(TooFewParts)
    else if Count(f.threshold) < 2 || greater then Failure(BadThreshold)
    else
      var owners := FilterOwners(f.ownerAddresses, isAddress);
      if |owners| > 0 && |owners| != Count(f.parts) then Failure(OwnerCountMessage(f.parts))
      else if |owners| == Count(f.parts) then Success(owners)
      else Success([])
  }

  /** `handleSplitSecret`'s checks as written: after both count fields were
      edited, the threshold test compares their texts. */
  function ValidateSplitAsWritten(connected: bool, f: SplitForm, publicKey: string, isAddress: string -> bool)
    : (r: Result<seq<string>, string>)
    ensures r.Success? <==> connected && f.secret != "" && publicKey != "" && Count(f.parts) >= 2
                            && Count(f.threshold) >= 2 && !GreaterAsWritten(f.threshold, f.parts)
                            && (|FilterOwners(f.ownerAddresses, isAddress)| == 0 || |FilterOwners(f.ownerAddresses, isAddress)| == Count(f.parts))
    ensures (connected && f.secret != "" && publicKey != "" && Count(f.parts) >= 2
             && (Count(f.threshold) < 2 || GreaterAsWritten(f.threshold, f.parts))) ==> r == Failure(BadThreshold)
  {
    SplitChecks(connected, f, publicKey, isAddress, GreaterAsWritten(f.threshold, f.parts))
  }

  /** The checks as intended: the threshold test compares the numbers. */
  function ValidateSplit(connected: bool, f: SplitForm, publicKey: string, isAddress: string -> bool)
    : (r: Result<seq<string>, string>)
    ensures r.Success? <==> connected && f.secret != "" && publicKey != "" && Count(f.parts) >= 2
                            && 2 <= Count(f.threshold) <= Count(f.parts)
                            && (|FilterOwners(f.ownerAddresses, isAddress)| == 0 || |FilterOwners(f.ownerAddresses, isAddress)| == Count(f.parts))
    ensures r.Success? ==> r.value == [] || (|r.value| == Count(f.parts) && forall a :: a in r.value ==> a in f.ownerAddresses && isAddress(a))
    ensures !connected ==> r == Failure(NotConnected)
    ensures connected && f.secret != "" && publicKey != "" && Count(f.parts) < 2 ==> r == Failure(TooFewParts)
    ensures (connected && f.secret != "" && publicKey != "" && Count(f.parts) >= 2 && !(2 <= Count(f.threshold) <= Count(f.parts)))
            ==> r == Failure(BadThreshold)
  {
    SplitChecks(connected, f, publicKey, isAddress, Count(f.threshold) > Count(f.parts))
  }

  /** Ten parts with a threshold of three, both typed in: the page refuses
      the form, since the text "3" comes after "10", while the numbers
      pass. */
  lemma TenPartsThreeRefused(f: SplitForm, publicKey: string, isAddress: string -> bool)
    requires f.secret != "" && publicKey != ""
    requires f.parts == Edited("10") && f.threshold == Edited("3")
    requires forall k :: 0 <= k < |f.ownerAddresses| ==> f.ownerAddresses[k] == ""
    ensures ValidateSplitAsWritten(true, f, publicKey, isAddress) == Failure(BadThreshold)
    ensures ValidateSplit(true, f, publicKey, isAddress) == Success([])
  {
    assert DigitsValue("1") == 1 by {
      assert "1"[..0] == "";
    }
    assert Count(f.parts) == 10 by {
      assert "10"[..1] == "1";
    }
    assert Count(f.threshold) == 3 by {
      assert "3"[..0] == "";
    }
    assert TextLess("10", "3");
    FilterBlank(f.ownerAddresses, isAddress);
  }

  /** When the two counts are written with the same number of digits (both
      below 10, say), or either is still the initial number, the check as
      written decides as intended. */
  lemma AsWrittenAgreesOnSameLength(connected: bool, f: SplitForm, publicKey: string, isAddress: string -> bool)
    requires f.threshold.Number? || f.parts.Number? || |f.threshold.text| == |f.parts.text|
    ensures ValidateSplitAsWritten(connected, f, publicKey, isAddress) == ValidateSplit(connected, f, publicKey, isAddress)
  {
    if f.threshold.Edited? && f.parts.Edited? {
      TextLessIsNumeric(f.parts.text, f.threshold.text);
    }
  }

  /** On digit strings of equal length the string order is the numeric
      order. */
  lemma {:induction false} TextLessIsNumeric(a: Digits, b: Digits)
    requires |a| == |b|
    ensures TextLess(a, b) <==> DigitsValue(a) < DigitsValue(b)
    decreases |a|
  {
    LeadingDigit(a);
    LeadingDigit(b);
    var n := |a| - 1;
    if n > 0 {
      var a', b' := a[1..], b[1..];
      assert IsDigits(a') && IsDigits(b');
      TextLessIsNumeric(a', b');
      DigitsBelow(a');
      DigitsBelow(b');
      Scale(a[0] as int - '0' as int, b[0] as int - '0' as int, DigitsValue(a'), DigitsValue(b'), Pow10(n));
    }
  }

  function Pow10(n: nat): (p: nat)
    ensures p >= 1
  {
    if n == 0 then 1 else 10 * Pow10(n - 1)
  }

  /** The value of a digit string is its first digit's place value plus the
      value of the rest. */
  lemma {:induction false} LeadingDigit(s: Digits)
    ensures |s| == 1 ==> DigitsValue(s) == s[0] as int - '0' as int
    ensures |s| > 1 ==> DigitsValue(s) == (s[0] as int - '0' as int) * Pow10(|s| - 1) + DigitsValue(s[1..])
    decreases |s|
  {
    var d := s[0] as int - '0' as int;
    var init := s[..|s| - 1];
    var last := (s[|s| - 1] - '0') as nat;
    assert DigitsValue(s) == DigitsValue(init) * 10 + last;
    if |s| == 1 {
      assert init == [];
    } else {
      var tail := s[1..];
      assert tail[..|tail| - 1] == init[1..];
      assert DigitsValue(tail) == DigitsValue(init[1..]) * 10 + last;
      if |s| == 2 {
        assert init == [s[0]] && init[1..] == [];
        LeadingDigit(init);
        PlaceStep(d, 1, 0, last, DigitsValue(s));
      } else {
        LeadingDigit(init);
        PlaceStep(d, Pow10(|s| - 2), DigitsValue(init[1..]), last, DigitsValue(s));
      }
    }
  }

  /** One more digit shifts every place value up by ten. */
  lemma PlaceStep(d: int, p: int, v: int, last: int, w: int)
    requires w == (d * p + v) * 10 + last
    ensures w == d * (10 * p) + (v * 10 + last)
  {
  }

  /** A digit string of length n denotes less than 10^n. */
  lemma {:induction false} DigitsBelow(s: Digits)
    ensures DigitsValue(s) < Pow10(|s|)
    decreases |s|
  {
    if |s| > 1 {
      var init := s[..|s| - 1];
      DigitsBelow(init);
    } else {
      assert s[..0] == [];
    }
  }

  /** Place values: with lower parts below `p`, the leading digits decide. */
  lemma Scale(da: int, db: int, ra: int, rb: int, p: int)
    requires 0 <= ra < p && 0 <= rb < p && 0 <= da && 0 <= db
    ensures da != db ==> (da < db <==> da * p + ra < db * p + rb)
    ensures da == db ==> (ra < rb <==> da * p + ra < db * p + rb)
  {
    if da < db {
      MulLe(da + 1, db, p);
    } else if db < da {
      MulLe(db + 1, da, p);
    }
  }

  lemma MulLe(x: int, y: int, p: int)
    requires 0 <= x <= y && p >= 0
    ensures (x - 1) * p + p <= y * p
  {
    assert (x - 1) * p + p == x * p;
    assert y * p == x * p + (y - x) * p;
  }

  /** Blank rows never count: a form whose rows are all empty passes the
      owner check whatever `parts` is, and the caller becomes the owner. */
  lemma BlankOwnersDefaultToCaller(f: SplitForm, publicKey: string, isAddress: string -> bool)
    requires f.secret != "" && publicKey != "" && 2 <= Count(f.threshold) <= Count(f.parts)
    requires forall k :: 0 <= k < |f.ownerAddresses| ==> f.ownerAddresses[k] == ""
    ensures ValidateSplit(true, f, publicKey, isAddress) == Success([])
  {
    FilterBlank(f.ownerAddresses, isAddress);
  }

  /** A list of blank rows filters down to nothing. */
  lemma {:induction false} FilterBlank(owners: seq<string>, isAddress: string -> bool)
    requires forall k :: 0 <= k < |owners| ==> owners[k] == ""
    ensures FilterOwners(owners, isAddress) == []
  {
    if |owners| > 0 {
      FilterBlank(owners[1..], isAddress);
    }
  }

  // ------------------------------------------------------------ reconstruction check

  const NoSecretSelected := "Please select a secret to reconstruct"
  const NoDecryptionKeys := "Encryption keys not available. Please retrieve your wallet keys or generate browser keys."

  function NotEnoughShares(threshold: nat, selected: nat): string
  {
    "You need at least " + Decimal(threshold) + " shares to reconstruct this secret (selected: " + Decimal(selected) + ")"
  }

  /** `sharesToUse.filter(s => s.secretId === id).map(s => parseInt(s.shareId))`. */
  function RelevantShareIds(list: seq<Selection>, secretId: string): (ids: seq<nat>)
    ensures |ids| <= |list|
    ensures forall n :: n in ids <==> Selection(secretId, n) in list
  {
    if |list| == 0 then []
    else
      var rest := RelevantShareIds(list[1..], secretId);
      assert forall q :: q in list <==> q == list[0] || q in list[1..];
      if list[0].secretId == secretId then [list[0].shareId] + rest else rest
  }

  /** Selections for other secrets never change what is sent for this one. */
  lemma {:induction false} OtherSecretsIgnored(list: seq<Selection>, secretId: string, other: string, shareId: nat)
    requires other != secretId
    ensures RelevantShareIds(ToggleShareSelection(list, other, shareId), secretId) == RelevantShareIds(list, secretId)
  {
    var p := Selection(other, shareId);
    var i := FindIndex(list, p);
    if i >= 0 {
      DropOtherKeepsRelevant(list, i, secretId);
    } else {
      RelevantSplit(list, [p], secretId);
    }
  }

  /** Taking out one entry for another secret leaves the filter unchanged. */
  lemma DropOtherKeepsRelevant(list: seq<Selection>, i: nat, secretId: string)
    requires i < |list| && list[i].secretId != secretId
    ensures RelevantShareIds(list[..i] + list[i + 1..], secretId) == RelevantShareIds(list, secretId)
  {
    var p, a, c := list[i], list[..i], list[i + 1..];
    assert list == a + ([p] + c);
    RelevantSplit(a, [p] + c, secretId);
    RelevantSplit([p], c, secretId);
    RelevantOther(p, secretId);
    RelevantSplit(a, c, secretId);
  }

  lemma RelevantOther(p: Selection, secretId: string)
    requires p.secretId != secretId
    ensures RelevantShareIds([p], secretId) == []
  {
    assert [p][1..] == [];
  }

  /** The filter distributes over concatenation. */
  lemma {:induction false} RelevantSplit(a: seq<Selection>, b: seq<Selection>, secretId: string)
    ensures RelevantShareIds(a + b, secretId) == RelevantShareIds(a, secretId) + RelevantShareIds(b, secretId)
  {
    if |a| > 0 {
      assert (a + b)[0] == a[0] && (a + b)[1..] == a[1..] + b;
      RelevantSplit(a[1..], b, secretId);
    } else {
      assert a + b == b;
    }
  }

  /** A duplicate-free selection sends each share id at most once. */
  lemma {:induction false} DistinctShareIds(list: seq<Selection>, secretId: string)
    requires NoDuplicates(list)
    ensures NoDuplicates(RelevantShareIds(list, secretId))
  {
    if |list| > 0 {
      var rest := RelevantShareIds(list[1..], secretId);
      assert NoDuplicates(list[1..]) by {
        forall a, b | 0 <= a < b < |list| - 1
          ensures list[1..][a] != list[1..][b]
        {
          assert list[1..][a] == list[a + 1] && list[1..][b] == list[b + 1];
        }
      }
      DistinctShareIds(list[1..], secretId);
      if list[0].secretId == secretId {
        assert Selection(secretId, list[0].shareId) !in list[1..];
        assert list[0].shareId !in rest;
      }
    }
  }

  /** The checks `handleReconstructSecret` makes before it calls the
      contract. `threshold` is `secretDetails[id]?.threshold`: when the
      details were never loaded it is undefined, the comparison with it is
      false, and the check lets any selection through. */
  function CheckReconstruction(secretToReconstruct: string, publicKey: string, list: seq<Selection>, threshold: Option<nat>)
    : (r: Result<seq<nat>, string>)
    ensures r.Success? <==> secretToReconstruct != "" && publicKey != ""
                            && (threshold.None? || |RelevantShareIds(list, secretToReconstruct)| >= threshold.value)
    ensures r.Success? ==> r.value == RelevantShareIds(list, secretToReconstruct)
    ensures r.Success? ==> forall n :: n in r.value <==> IsShareSelected(list, secretToReconstruct, n)
    ensures secretToReconstruct != "" && publicKey != "" && threshold.Some?
            && |RelevantShareIds(list, secretToReconstruct)| < threshold.value
            ==> r == Failure(NotEnoughShares(threshold.value, |RelevantShareIds(list, secretToReconstruct)|))
  {
    if secretToReconstruct == "" then Failure(NoSecretSelected)
    else if publicKey == "" then Failure(NoDecryptionKeys)
    else
      var ids := RelevantShareIds(list, secretToReconstruct);
      if threshold.Some? && |ids| < threshold.value then Failure(NotEnoughShares(threshold.value, |ids|))
      else Success(ids)
  }
}
