/**
 * ItemUtility: the validation of a new item's fields, the quantity-edit
 * flow with delete-on-zero, deletion after an existence check, the
 * food-group cell update and the freshness refresh of every container.
 * The error handler and the success callback become the list of messages
 * passed to the handler and the number of times the callback ran.
 */
module ItemUtility {
  import opened Results
  import opened JavaText
  import opened Calendar
  import opened Tags
  import opened Database

  const MaxNameLength: int := 50

  const MultipleInvalidMessage: string := "There are empty and/or invalid inputs, no item added."
  const EmptyNameMessage: string := "Item name cannot be empty."
  const NameTooLongMessage: string := "Item Name exceeds character length (50)."
  const InvalidQuantityMessage: string :=
    "Please enter a valid number for quantity (has to be an integer greater than 0)."
  const EmptyDateMessage: string := "Date cannot be empty."
  const BadDateFormatMessage: string := "Please enter the expiry date in the correct format (dd-MMM-yyyy)."
  const ExpiredMessage: string := "Expired item, please discard."

  const EmptyQuantityMessage: string := "Quantity cannot be empty!"
  const NegativeQuantityMessage: string := "You can't have a negative quantity!"
  const NotANumberMessage: string := "Not a valid number!"

  // ---------------------------------------------------------------------
  // Field checks
  // ---------------------------------------------------------------------

  /** isQuantityValid: the text parses as a Java int greater than zero. */
  predicate IsQuantityValid(quantityText: string): (valid: bool)
    ensures valid ==> quantityText != [] && (IsDigit(quantityText[0]) || quantityText[0] == '+')
  {
    ParseInt(quantityText).Some? && ParseInt(quantityText).value > 0
  }

  /** For the text Integer.toString gives, validity is positivity. */
  lemma QuantityValidIffPositive(n: int)
    requires IsInt32(n)
    ensures IsQuantityValid(IntToString(n)) <==> n > 0
  {
    ParseIntOfIntToString(n);
  }

  /** The inputs the unit tests try: a negative number, zero and words are
      rejected, a positive number is accepted. */
  lemma QuantityExamples()
    ensures !IsQuantityValid("-1")
    ensures !IsQuantityValid("0")
    ensures !IsQuantityValid("not a number")
    ensures IsQuantityValid("10")
  {
    QuantityValidIffPositive(-1);
    QuantityValidIffPositive(0);
    QuantityValidIffPositive(10);
    ParseIntRejectsNonDigits();
  }

  const ExpiryValid: int := 0
  const ExpiryBadFormat: int := -1
  const ExpiryPassed: int := 1

  /** validateExpiryDate: -1 when the text is not a dd-MMM-yyyy date, 1 when
      the last millisecond of that day lies before now, 0 otherwise. */
  function ValidateExpiryDate(expiryText: string, now: int): (code: int)
    ensures code == ExpiryBadFormat || code == ExpiryValid || code == ExpiryPassed
    ensures code == ExpiryBadFormat <==> ParseDate(expiryText).None?
    ensures code == ExpiryPassed <==> ParseDate(expiryText).Some? && DayNumber(ParseDate(expiryText).value) < DayOf(now)
  {
    match ParseDate(expiryText)
    case None => ExpiryBadFormat
    case Some(expiry) =>
      EndOfDayBeforeIff(DayNumber(expiry), now);
      if EndOfDay(DayNumber(expiry)) < now then ExpiryPassed else ExpiryValid
  }

  /** An expiry date of today itself is accepted, at any time of the day. */
  lemma ExpiryTodayAccepted(d: Date, now: int)
    requires IsValid(d) && DayNumber(d) == DayOf(now)
    ensures ValidateExpiryDate(FormatDate(d), now) == ExpiryValid
  {
    ParseFormatDate(d);
  }

  /** An expiry date accepted at instant now is never one the batch update
      classifies Expired on that day. */
  lemma AcceptedExpiryNotExpired(expiryText: string, now: int)
    requires ValidateExpiryDate(expiryText, now) == ExpiryValid
    ensures ParseDate(expiryText).Some?
    ensures Classify(DayNumber(ParseDate(expiryText).value), DayOf(now)) != Expired
  {
  }

  // ---------------------------------------------------------------------
  // verifyAddItem
  // ---------------------------------------------------------------------

  /** What verifyAddItem returns, with the messages it passes to its error
      handler, in order. */
  datatype AddVerdict = AddVerdict(accepted: bool, messages: seq<string>)

  function Reject(message: string): AddVerdict
  {
    AddVerdict(false, [message])
  }

  /** verifyAddItem on the raw inputs at instant now: the three fields are
      trimmed, then checked. */
  function VerifyAddItem(nameText: string, quantityText: string, expiryText: string, now: int): (v: AddVerdict)
    ensures v.accepted <==>
      && Trim(nameText) != [] && |Trim(nameText)| <= MaxNameLength
      && IsQuantityValid(Trim(quantityText))
      && ValidateExpiryDate(Trim(expiryText), now) == ExpiryValid
    ensures |v.messages| == if v.accepted then 0 else 1
  {
    CheckFields(Trim(nameText), Trim(quantityText), Trim(expiryText), now)
  }

  /** The checks verifyAddItem makes on the trimmed fields: the tally of
      invalid fields first, then one message in priority order. */
  function CheckFields(name: string, quantity: string, expiry: string, now: int): (v: AddVerdict)
    ensures v.accepted <==>
      name != [] && |name| <= MaxNameLength && IsQuantityValid(quantity) && ValidateExpiryDate(expiry, now) == ExpiryValid
    ensures |v.messages| == if v.accepted then 0 else 1
  {
    var nameIsEmpty := name == [];
    var quantityIsEmpty := quantity == [];
    var expiryIsEmpty := expiry == [];
    var expiryResult := ValidateExpiryDate(expiry, now);
    var invalidInputs :=
      (if nameIsEmpty || |name| > MaxNameLength then 1 else 0)
      + (if quantityIsEmpty || !IsQuantityValid(quantity) then 1 else 0)
      + (if expiryIsEmpty || expiryResult != ExpiryValid then 1 else 0);
    if invalidInputs > 1 then Reject(MultipleInvalidMessage)
    else if nameIsEmpty then Reject(EmptyNameMessage)
    else if |name| > MaxNameLength then Reject(NameTooLongMessage)
    else if quantityIsEmpty || !IsQuantityValid(quantity) then Reject(InvalidQuantityMessage)
    else if expiryIsEmpty then Reject(EmptyDateMessage)
    else if expiryResult == ExpiryBadFormat then Reject(BadDateFormatMessage)
    else if expiryResult == ExpiryPassed then Reject(ExpiredMessage)
    else AddVerdict(true, [])
  }

  /** A validation rule: whether it fails, and the message it reports. */
  datatype Rule = Rule(fails: bool, message: string)

  /** The rules for a new item's fields, in priority order. */
  function AddRules(name: string, quantity: string, expiry: string, now: int): seq<Rule>
  {
    [ Rule(name == [], EmptyNameMessage),
      Rule(|name| > MaxNameLength, NameTooLongMessage),
      Rule(!IsQuantityValid(quantity), InvalidQuantityMessage),
      Rule(expiry == [], EmptyDateMessage),
      Rule(ValidateExpiryDate(expiry, now) == ExpiryBadFormat, BadDateFormatMessage),
      Rule(ValidateExpiryDate(expiry, now) == ExpiryPassed, ExpiredMessage) ]
  }

  /** The message of the first failing rule, if any. */
  function FirstFailure(rules: seq<Rule>): (r: Option<string>)
    ensures r.None? <==> forall i :: 0 <= i < |rules| ==> !rules[i].fails
    ensures r.Some? ==> exists i :: 0 <= i < |rules| && rules[i].fails && rules[i].message == r.value
                                    && forall j :: 0 <= j < i ==> !rules[j].fails
  {
    if rules == [] then None
    else if rules[0].fails then Some(rules[0].message)
    else
      var r := FirstFailure(rules[1..]);
      assert forall i :: 1 <= i < |rules| ==> rules[i] == rules[1..][i - 1];
      r
  }

  /** How many of the three fields (name, quantity, expiry) are invalid. */
  function InvalidFieldCount(name: string, quantity: string, expiry: string, now: int): nat
  {
    (if name == [] || |name| > MaxNameLength then 1 else 0)
    + (if !IsQuantityValid(quantity) then 1 else 0)
    + (if ValidateExpiryDate(expiry, now) != ExpiryValid then 1 else 0)
  }

  /** The two-tier policy stated on its own, on the trimmed fields: two or
      more invalid fields give the aggregate message; otherwise the first
      failing rule in priority order is reported, and an item with none is
      accepted. */
  function AddPolicy(name: string, quantity: string, expiry: string, now: int): AddVerdict
  {
    if InvalidFieldCount(name, quantity, expiry, now) >= 2 then Reject(MultipleInvalidMessage)
    else
      match FirstFailure(AddRules(name, quantity, expiry, now))
      case Some(message) => Reject(message)
      case None => AddVerdict(true, [])
  }

  /** The first failure among six rules, spelled out. */
  lemma FirstFailureOfSix(rules: seq<Rule>)
    requires |rules| == 6
    ensures FirstFailure(rules) ==
      if rules[0].fails then Some(rules[0].message)
      else if rules[1].fails then Some(rules[1].message)
      else if rules[2].fails then Some(rules[2].message)
      else if rules[3].fails then Some(rules[3].message)
      else if rules[4].fails then Some(rules[4].message)
      else if rules[5].fails then Some(rules[5].message)
      else None
  {
  }

  /** A blank expiry is a badly formatted one. */
  lemma EmptyExpiryIsBadFormat(now: int)
    ensures ValidateExpiryDate([], now) == ExpiryBadFormat
  {
    assert Split([], '-') == [[]];
  }

  /** The checks on the trimmed fields follow the two-tier policy exactly,
      priority order included. */
  lemma CheckFieldsFollowsPolicy(name: string, quantity: string, expiry: string, now: int)
    ensures CheckFields(name, quantity, expiry, now) == AddPolicy(name, quantity, expiry, now)
  {
    assert quantity == [] ==> !IsQuantityValid(quantity) by {
      assert ParseInt([]) == None;
    }
    EmptyExpiryIsBadFormat(now);
    FirstFailureOfSix(AddRules(name, quantity, expiry, now));
  }

  /** verifyAddItem follows the two-tier policy on the trimmed fields. */
  lemma VerifyAddItemFollowsPolicy(nameText: string, quantityText: string, expiryText: string, now: int)
    ensures VerifyAddItem(nameText, quantityText, expiryText, now)
            == AddPolicy(Trim(nameText), Trim(quantityText), Trim(expiryText), now)
  {
    CheckFieldsFollowsPolicy(Trim(nameText), Trim(quantityText), Trim(expiryText), now);
  }

  /** Two or more invalid fields always give the single aggregate message. */
  lemma AggregateMessageWhenSeveralInvalid(nameText: string, quantityText: string, expiryText: string, now: int)
    requires InvalidFieldCount(Trim(nameText), Trim(quantityText), Trim(expiryText), now) >= 2
    ensures VerifyAddItem(nameText, quantityText, expiryText, now) == Reject(MultipleInvalidMessage)
  {
    VerifyAddItemFollowsPolicy(nameText, quantityText, expiryText, now);
  }

  /** "oct" names October, in lower case. */
  lemma ParseMonthOfLowerOct()
    ensures ParseMonth("oct") == Some(10)
  {
    var a := "oct";
    assert NamesMonth(a, 10);
    forall k | 1 <= k < 10 ensures !NamesMonth(a, k) {
      DifferAt(a, MonthAbbreviations[k - 1], 0);
      if k == 5 {
        DifferAt(a, MonthNames[k - 1], 0);
      } else {
        assert |MonthNames[k - 1]| != |a|;
      }
    }
  }

  /** A one-digit day and a lower-case month abbreviation: "2-oct-2099"
      reads as 2 October 2099. */
  lemma ParseDateExample()
    ensures ParseDate("2-oct-2099") == Some(Date(2099, 10, 2))
  {
    var dd, mmm, yyyy := "2", "oct", "2099";
    assert "2-oct-2099" == dd + ['-'] + (mmm + ['-'] + yyyy);
    assert '-' !in dd && '-' !in mmm && '-' !in yyyy;
    ParseDateOfFields(dd, mmm, yyyy);
    SkipFieldBlanksUnpadded(dd);
    SkipFieldBlanksUnpadded(mmm);
    SkipFieldBlanksUnpadded(yyyy);
    ParseFieldsExample();
  }

  lemma ParseFieldsExample()
    ensures ParseFields("2", "oct", "2099") == Some(Date(2099, 10, 2))
  {
    DigitsExample();
    ParseMonthOfLowerOct();
    assert IsValid(Date(2099, 10, 2));
  }

  lemma DigitsExample()
    ensures AllDigits("2099") && DigitsValue("2099") == 2099
    ensures AllDigits("2") && DigitsValue("2") == 2
  {
    assert "2"[..0] == [];
    assert DigitsValue("2") == 2;
    assert "20"[..1] == "2";
    assert DigitsValue("20") == 20;
    assert "209"[..2] == "20";
    assert DigitsValue("209") == 209;
    assert "2099"[..3] == "209";
  }

  lemma SplitDateExample()
    ensures Split("2-oct-2099", '-') == ["2", "oct", "2099"]
  {
    assert "2-oct-2099" == "2" + ['-'] + ("oct" + ['-'] + "2099");
    assert '-' !in "2" && '-' !in "oct" && '-' !in "2099";
    SplitThree("2", "oct", "2099");
  }

  /** Three sample submissions, at any instant up to the end of
      2 October 2099: a lone empty name gets its own message, three bad
      fields get the aggregate message, and a good item is accepted. */
  lemma VerifyAddItemExamples(now: int)
    requires DayOf(now) <= DayNumber(Date(2099, 10, 2))
    ensures VerifyAddItem("", "10", "2-oct-2099", now) == Reject(EmptyNameMessage)
    ensures VerifyAddItem("", "abc", "", now) == Reject(MultipleInvalidMessage)
    ensures VerifyAddItem("Apple", "10", "2-oct-2099", now) == AddVerdict(true, [])
  {
    TrimUnpadded("");
    TrimUnpadded("10");
    TrimUnpadded("abc");
    TrimUnpadded("2-oct-2099");
    TrimUnpadded("Apple");
    QuantityExamples();
    assert !IsQuantityValid("abc") by {
      assert !IsDigit("abc"[0]) && "abc"[0] != '-' && "abc"[0] != '+';
    }
    EmptyExpiryIsBadFormat(now);
    ParseDateExample();
  }

  // ---------------------------------------------------------------------
  // verifyDeleteItem
  // ---------------------------------------------------------------------

  /** verifyDeleteItem: removes the item and answers true when getItem finds
      it, answers false and changes nothing when it does not; an unknown
      stored tag makes getItem throw before anything is removed. */
  method VerifyDeleteItem<G>(itemName: string, c: string, db: DB<G>) returns (r: Result<bool>)
    modifies db
    ensures old(db.GetItem(c, itemName)).Err? ==>
      r == Err(old(db.GetItem(c, itemName)).message) && unchanged(db)
    ensures old(db.GetItem(c, itemName)) == Ok(None) ==> r == Ok(false) && unchanged(db)
    ensures old(db.GetItem(c, itemName)).Ok? && old(db.GetItem(c, itemName)).value.Some? ==>
      r == Ok(true) && db.items == WithoutKey(old(db.items), c, itemName) && db.containers == old(db.containers)
    ensures old(db.Valid()) ==> db.Valid()
  {
    var found := db.GetItem(c, itemName);
    if found.Err? {
      return Err(found.message);
    }
    if found.value.Some? {
      db.RemoveItemFrom(c, itemName);
      return Ok(true);
    } else {
      return Ok(false);
    }
  }

  // ---------------------------------------------------------------------
  // verifyEditQuantity
  // ---------------------------------------------------------------------

  /** What an edit input asks for. */
  datatype EditRequest = Ignore | RejectEmpty | RejectNotANumber | RejectNegative | Delete | SetQuantity(n: int)

  /** The request an edit input makes: null is ignored; the trimmed text
      must be non-empty and parse as a Java int; a negative value is
      refused, zero asks for deletion and a positive value for an update. */
  function EditRequestOf(val: Option<string>): (req: EditRequest)
    ensures req.SetQuantity? ==> 0 < req.n <= MaxInt32
  {
    match val
    case None => Ignore
    case Some(text) =>
      var t := Trim(text);
      if t == [] then RejectEmpty
      else
        match ParseInt(t)
        case None => RejectNotANumber
        case Some(n) =>
          if n < 0 then RejectNegative else if n == 0 then Delete else SetQuantity(n)
  }

  /** The text of an int asks for deletion at zero, for that quantity above
      zero and is refused below zero. */
  lemma EditRequestOfIntText(n: int)
    requires IsInt32(n)
    ensures EditRequestOf(Some(IntToString(n))) ==
      if n < 0 then RejectNegative else if n == 0 then Delete else SetQuantity(n)
  {
    var s := IntToString(n);
    assert s != [] && !IsBlankChar(s[0]) && !IsBlankChar(s[|s| - 1]) by {
      if n < 0 {
        assert s[|s| - 1] == NatToString(-n)[|NatToString(-n)| - 1];
      }
    }
    TrimUnpadded(s);
    ParseIntOfIntToString(n);
  }

  /** A blank edit is refused as empty. */
  lemma EditRequestOfBlank()
    ensures EditRequestOf(Some("")) == RejectEmpty
    ensures EditRequestOf(Some("   ")) == RejectEmpty
  {
    TrimEmptyIffBlank("   ");
  }

  /** Words are refused as not a number. */
  lemma EditRequestOfWords()
    ensures EditRequestOf(Some("abc")) == RejectNotANumber
  {
    var s := "abc";
    TrimUnpadded(s);
    assert !IsDigit(s[0]) && s[0] != '-' && s[0] != '+';
  }

  /** One input of each kind the quantity edit tells apart: null, blank,
      words, a negative number and zero. */
  lemma EditRequestExamples()
    ensures EditRequestOf(None) == Ignore
    ensures EditRequestOf(Some("")) == RejectEmpty
    ensures EditRequestOf(Some("   ")) == RejectEmpty
    ensures EditRequestOf(Some("abc")) == RejectNotANumber
    ensures EditRequestOf(Some("-5")) == RejectNegative
    ensures EditRequestOf(Some("0")) == Delete
  {
    EditRequestOfBlank();
    EditRequestOfWords();
    EditRequestOfNumbers();
  }

  /** A negative number is refused and zero asks for deletion. */
  lemma EditRequestOfNumbers()
    ensures EditRequestOf(Some("-5")) == RejectNegative
    ensures EditRequestOf(Some("0")) == Delete
  {
    TrimUnpadded("-5");
    TrimUnpadded("0");
    assert ParseInt("-5") == Some(-5) by {
      assert "-5"[1..] == "5" && "5"[..0] == [];
    }
    assert ParseInt("0") == Some(0) by {
      assert "0"[..0] == [];
    }
  }

  /** How a call of verifyEditQuantity ended: it returned after passing
      these messages to the error handler and running the success callback
      this many times, or getItem threw inside verifyDeleteItem (only
      NumberFormatException is caught). */
  datatype EditReport = Returned(errors: seq<string>, callbacks: nat) | Threw(message: string)

  /** verifyEditQuantity(val, db, c, item, errorHandler, successCallback). */
  method VerifyEditQuantity<G>(val: Option<string>, db: DB<G>, c: string, item: string) returns (report: EditReport)
    modifies db
    ensures EditRequestOf(val) == Ignore ==> report == Returned([], 0) && unchanged(db)
    ensures EditRequestOf(val) == RejectEmpty ==> report == Returned([EmptyQuantityMessage], 0) && unchanged(db)
    ensures EditRequestOf(val) == RejectNotANumber ==> report == Returned([NotANumberMessage], 0) && unchanged(db)
    ensures EditRequestOf(val) == RejectNegative ==> report == Returned([NegativeQuantityMessage], 0) && unchanged(db)
    ensures EditRequestOf(val) == Delete ==>
      if old(db.GetItem(c, item)).Err? then report == Threw(old(db.GetItem(c, item)).message) && unchanged(db)
      else report == Returned([], 1) && db.containers == old(db.containers)
           && db.items == (if old(db.GetItem(c, item)).value.Some? then WithoutKey(old(db.items), c, item) else old(db.items))
    ensures EditRequestOf(val).SetQuantity? ==>
      report == Returned([], 1) && db.containers == old(db.containers)
      && db.items == UpdateWhere(old(db.items), c, item, (row: Row) => row.(quantity := EditRequestOf(val).n))
    ensures old(db.Valid()) ==> db.Valid()
  {
    if val.None? {
      return Returned([], 0);
    }
    var text := Trim(val.value);
    if text == [] {
      return Returned([EmptyQuantityMessage], 0);
    }
    var parsed := ParseInt(text);
    if parsed.None? {
      return Returned([NotANumberMessage], 0);
    }
    var o := parsed.value;
    if o < 0 {
      return Returned([NegativeQuantityMessage], 0);
    } else if o == 0 {
      var deleted := VerifyDeleteItem(item, c, db);
      if deleted.Err? {
        return Threw(deleted.message);
      }
      return Returned([], 1);
    } else {
      db.UpdateQuantity(item, o, c);
      return Returned([], 1);
    }
  }

  // ---------------------------------------------------------------------
  // updateItemFoodGroupTag and updateFreshness
  // ---------------------------------------------------------------------

  /** The Object a table cell holds: a FoodGroup constant, or anything else
      (null included). */
  datatype CellValue<G> = FoodGroupValue(group: G) | OtherValue

  const FoodGroupColumn: int := 3

  /** updateItemFoodGroupTag: sets the item's food group only when the
      edited column is the food-group column (3) and the new value is a
      FoodGroup; otherwise nothing changes. */
  method UpdateItemFoodGroupTag<G>(c: string, itemName: string, newValue: CellValue<G>, column: int, db: DB<G>)
    modifies db
    ensures column == FoodGroupColumn && newValue.FoodGroupValue? ==>
      db.items == UpdateWhere(old(db.items), c, itemName, (row: Row) => row.(fg := Some(db.groups.displayName(newValue.group))))
      && db.containers == old(db.containers)
    ensures !(column == FoodGroupColumn && newValue.FoodGroupValue?) ==> unchanged(db)
    ensures old(db.Valid()) ==> db.Valid()
  {
    if column == FoodGroupColumn && newValue.FoodGroupValue? {
      db.UpdateItemFoodGroup(c, itemName, newValue.group);
    }
  }

  /** assignFoodFreshness: the batch freshness update of one container. */
  method AssignFoodFreshness<G>(c: string, db: DB<G>, today: int)
    modifies db
    ensures db.items == Refreshed(old(db.items), c, today)
    ensures db.containers == old(db.containers)
    ensures old(db.Valid()) ==> db.Valid()
  {
    db.BatchUpdateItemFreshness(c, today);
  }

  /** updateFreshness: the batch freshness update of every container, in
      the order retrieveContainers lists them. */
  method UpdateFreshness<G>(db: DB<G>, today: int)
    modifies db
    ensures db.items == RefreshedAll(old(db.items), old(db.containers), today)
    ensures db.containers == old(db.containers)
    ensures old(db.Valid()) ==> db.Valid()
  {
    var names := db.RetrieveContainers();
    var i := 0;
    while i < |names|
      invariant 0 <= i <= |names|
      invariant names == db.containers == old(db.containers)
      invariant db.items == RefreshedAll(old(db.items), names[..i], today)
      invariant old(db.Valid()) ==> db.Valid()
    {
      assert names[..i + 1][..i] == names[..i];
      db.BatchUpdateItemFreshness(names[i], today);
      i := i + 1;
    }
    assert names[..i] == names;
  }
}
