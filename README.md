# Perishable-food inventory: item rules, tags and the item store

This project models the core of a desktop inventory for perishable food. The
user keeps items (name, quantity, expiry date) in named containers. Each item
may carry two tags: a food group and a freshness state (Fresh, Near_Expiry,
Expired). Freshness is derived from the expiry date and refreshed in bulk.
The model covers three parts of the program:

- `ItemUtility` (item_utility.dfy): how a new item's fields are validated. Two
  or more bad fields give one aggregate message. A single bad field gives its
  own message, in a fixed priority order. This file also models:
  - the quantity edit, which deletes the item when the new quantity is zero;
  - deletion after an existence check;
  - the food-group cell update;
  - the freshness refresh of every container.
- `Tags` (tags.dfy): the mutable `GenericTag` wrapper. It covers equality,
  hash code and comparison, and the case-insensitive reverse lookup of a
  constant from its display name. An unknown name is a hard error.
- `Database` (database.dfy): the `DB` store, with its container table and
  item table modelled as in-memory sequences of rows. It covers:
  - add-if-absent insertion;
  - deletion by name across all containers;
  - partial tag updates;
  - the batch freshness classification;
  - reading rows back through the tag lookup.

Supporting modules model the Java library behaviour the core relies on:

- `JavaText` (text.dfy): `String.trim`, `equalsIgnoreCase`,
  `Integer.parseInt`, `String.compareTo` and 32-bit wrap-around.
- `Calendar` (calendar.dfy): the non-lenient `dd-MMM-yyyy` parse, day numbers
  of the proleptic Gregorian calendar, and the end-of-day instant.
- `Results` (results.dfy): the shared `Option` and `Result` types, and
  `Outcome`, which says whether a Java method returned or threw.

## How the model represents the program

- The store is the `DB` class. Its `containers` and `items` fields are
  reassigned by each operation, as each SQL statement changes the tables.
  - Every method states its whole new state as a function of the old one.
  - Every method that changes the store also keeps `Valid()`: no two item
    rows share a container and a name. The constructor establishes it.
  - Lemmas beside the methods prove what those functions promise: only the
    intended rows change, `getItem` reads back what was written, and the
    freshness update is idempotent.
- `GenericTag` is a class with a mutable `tag` field (`None` stands for
  null). `fromString` is a search loop proved against the pure `Lookup`
  function.
- The clock is a parameter. Validation takes `now` in milliseconds of local
  time. The batch update takes `today` as a day number. `DayOf(now)` links
  the two.
- Dates are day numbers counted from 1 January of year 1.
- An error handler becomes the list of messages it received. The success
  callback becomes the number of times it ran.
- An exception thrown by the tag lookup (`IllegalArgumentException`) is an
  `Err`/`Thrown`/`Threw` value. It propagates wherever the Java code does not
  catch it.
- The food-group enumeration is a type parameter `G` with a `TagDomain<G>`:
  its constants in declaration order, its display names, its `toString` and
  its simple class name. FoodGroup.java is not part of this model.
- The freshness enumeration is the concrete `FoodFreshness`. Its display
  names are taken to be the SQL labels the batch update writes ("Fresh",
  "Near_Expiry", "Expired"), because FoodFreshness.java is not part of this
  model.

### Behaviour of the code worth knowing

The model follows the code in each of these cases:

- **Expiry on the current day.** The batch update's SQL `CASE` classifies
  an item expiring today as `Fresh`, not `Near_Expiry`: `expiry > CURRENT_DATE`
  fails and the `ELSE` branch applies. Only items expiring in the next one
  to seven days are `Near_Expiry`. See `Database.Classify`.
- **Deleting a container.** `removeContainer` deletes only the container
  row. The container's items stay in the item table
  (`Database.DB.RemoveContainer`).
- **Renaming a container.** `editContainer` renames only the container row.
  The items keep the old container name.
- **Container names.** `putContainer` inserts without a check, so nothing
  in the store keeps container names unique. Item keys (container and
  name) stay unique: `Database.DB.Valid` is kept by every operation.
- **Tags can change.** `GenericTag` has two `setTag` mutators, and both are
  modelled.
- **Comparing tags.** `compareTo` compares `tag.toString()` with the other
  tag's display name. It is antisymmetric and consistent with `equals` only
  when each constant's `toString` equals its display name.
  - `Tags.CompareToWhenToStringIsDisplayName` proves this for that case.
  - `Tags.CompareToInconsistentWithEquals` shows the other case.

## Model

| member | source | states |
|---|---|---|
| JavaText.Trim | src/domain/logic/item/ItemUtility.java:51-53 | the result is a contiguous slice of the input: only blank chars (<= ' ') are cut from each end, and what is left starts and ends with a non-blank char |
| JavaText.TrimIdempotent | src/domain/logic/item/ItemUtility.java:51-53 | trimming a trimmed string changes nothing |
| JavaText.TrimEmptyIffBlank | src/domain/logic/item/ItemUtility.java:56-58 | a field is empty after trimming exactly when every char of it is blank |
| JavaText.TrimUnpadded | src/domain/logic/item/ItemUtility.java:220-221 | text with no blank at either end is kept as it is |
| JavaText.EqualsIgnoreCaseIsEquivalence | src/domain/logic/item/GenericTag.java:103 | the case-insensitive comparison of display names is reflexive, symmetric and transitive |
| JavaText.ParseInt | src/domain/logic/item/ItemUtility.java:94 | a parsed value is a 32-bit int, the text starts with a sign or a digit, and a negative value comes only from text starting with '-' |
| JavaText.ParseIntOfIntToString | src/domain/logic/item/ItemUtility.java:94 | every 32-bit int parses back from its decimal text |
| JavaText.DigitsValueLeadingZero | src/domain/logic/item/ItemUtility.java:105 | a leading zero does not change the value of a digit field |
| JavaText.DigitsValueLeadingZeros | src/domain/logic/item/ItemUtility.java:105 | any run of leading zeros leaves the value of a digit field unchanged |
| JavaText.DigitsValueOfNatToString | src/domain/logic/item/ItemUtility.java:225 | the decimal text of a natural number is all digits and has that value |
| JavaText.ParseIntRejectsOutOfRange | src/domain/logic/item/ItemUtility.java:94-97 | digit text whose value exceeds the int range, with or without a sign, does not parse |
| JavaText.ParseIntAcceptsSignAndZeros | src/domain/logic/item/ItemUtility.java:94 | "+7", "007" and "-0" parse as 7, 7 and 0 |
| JavaText.ParseIntRejectsNonDigits | src/domain/logic/item/ItemUtility.java:96-97 | "", "-", "not a number" and "1.5" do not parse |
| JavaText.CompareStrings | src/domain/logic/item/GenericTag.java:117 | String.compareTo is zero exactly when the strings are equal |
| JavaText.CompareStringsAntisymmetric | src/domain/logic/item/GenericTag.java:117 | comparing b with a gives the negation of comparing a with b |
| JavaText.Wrap32 | src/domain/logic/item/GenericTag.java:91 | the int hash arithmetic wraps modulo 2^32 into the int range and leaves in-range values alone |
| Calendar.DaysInMonth | src/domain/logic/item/ItemUtility.java:102-103 | every month of the Gregorian calendar has 28 to 31 days |
| Calendar.FindMonth | src/domain/logic/item/ItemUtility.java:102-105 | the month found is the first one whose abbreviation or full name matches the text ignoring case, and none is found when no month matches |
| Calendar.Split | src/domain/logic/item/ItemUtility.java:102 | the date text splits at '-' into at least one field, none containing '-' |
| Calendar.SplitAfterField | src/domain/logic/item/ItemUtility.java:102 | a field followed by '-' and the rest splits into that field and the fields of the rest |
| Calendar.ParseDate | src/domain/logic/item/ItemUtility.java:102-105 | whatever the non-lenient dd-MMM-yyyy reading accepts is a real calendar date |
| Calendar.SkipFieldBlanksSuffix | src/domain/logic/item/ItemUtility.java:105 | before each field only spaces and tabs are skipped, and the field read starts with neither |
| Calendar.SkipFieldBlanksUnpadded | src/domain/logic/item/ItemUtility.java:105 | a field that starts with neither a space nor a tab is read as it is |
| Calendar.SkipFieldBlanksOfPadded | src/domain/logic/item/ItemUtility.java:105 | any spaces and tabs before a field are skipped |
| Calendar.ParseFields | src/domain/logic/item/ItemUtility.java:102-105 | a day of one or more digits, a month name and a year of digits are accepted only as a real calendar date |
| Calendar.SplitThree | src/domain/logic/item/ItemUtility.java:102 | three fields without '-' joined by '-' split back into those three fields |
| Calendar.ParseDateOfFields | src/domain/logic/item/ItemUtility.java:102-105 | text made of three '-'-free fields reads as those fields after their leading blanks |
| Calendar.ParsePaddedDate | src/domain/logic/item/ItemUtility.java:102-105 | every digit of the day is read and blanks before each field are skipped: a valid date with zeros before its day and spaces or tabs before its fields still reads as that date |
| Calendar.ParseFieldsOfDate | src/domain/logic/item/ItemUtility.java:102-105 | the fields of a valid date, with any zeros before the day, read as that date |
| Calendar.ParseMonthOfAbbreviation | src/domain/logic/item/ItemUtility.java:102-105 | each of the twelve MMM abbreviations reads back as its own month |
| Calendar.AbbreviationNamesNoOtherMonth | src/domain/logic/item/ItemUtility.java:102-105 | no month abbreviation names another month, abbreviated or in full |
| Calendar.ParseFormatDate | src/domain/logic/item/ItemUtility.java:102-105 | round trip: every valid date written as dd-MMM-yyyy parses back to that date |
| Calendar.DayNumberInYear | src/domain/logic/item/ItemUtility.java:105-114 | the day number of a date lies within the days of its year |
| Calendar.DayNumberOrder | src/domain/logic/item/ItemUtility.java:117 | day numbers order dates as the calendar does: smaller exactly when earlier, equal exactly when the same date |
| Calendar.EndOfDay | src/domain/logic/item/ItemUtility.java:107-114 | 23:59:59.999 is the last millisecond of its day: it falls on that day, and one millisecond later is the next day |
| Calendar.EndOfDayBeforeIff | src/domain/logic/item/ItemUtility.java:114-117 | the end of the expiry day is before now exactly when the expiry day is before today |
| Tags.FirstMatch | src/domain/logic/item/GenericTag.java:102-106 | the loop stops at the first constant, in declaration order, whose display name equals the text ignoring case, and reports none when none does |
| Tags.Lookup | src/domain/logic/item/GenericTag.java:101-108 | fromString yields a constant of the domain whose display name matches, fails exactly when no constant matches, and fails with the "No enum constant with display name ..." message |
| Tags.LookupDisplayName | src/domain/logic/item/GenericTag.java:101-108 | with distinct display names, looking up a constant's display name gives back that constant |
| Tags.CompareTags | src/domain/logic/item/GenericTag.java:116-118 | compareTo is zero exactly when the first tag's toString text equals the second tag's display name |
| Tags.GenericTag.constructor | src/domain/logic/item/GenericTag.java:18-20 | the new tag wraps the given value |
| Tags.GenericTag.Copy | src/domain/logic/item/GenericTag.java:27-29 | the copy wraps the same value and is equal to the original, both ways |
| Tags.GenericTag.SetTag | src/domain/logic/item/GenericTag.java:36-38 | the wrapped value becomes the new value, null included |
| Tags.GenericTag.SetTagFrom | src/domain/logic/item/GenericTag.java:45-49 | the value is copied from the other tag only when that tag and its value are non-null; otherwise nothing changes |
| Tags.GenericTag.Equals | src/domain/logic/item/GenericTag.java:77-82 | two tags are equal exactly when the other is non-null and wraps the same value |
| Tags.GenericTag.HashCode | src/domain/logic/item/GenericTag.java:90-92 | Objects.hash gives an int, and gives 31 for a null tag |
| Tags.GenericTag.FromString | src/domain/logic/item/GenericTag.java:101-108 | the search loop succeeds exactly when Lookup does, returns a new tag wrapping the constant Lookup finds, and otherwise throws Lookup's message |
| Tags.EqualsHashCode | src/domain/logic/item/GenericTag.java:77-92 | equal tags have equal hash codes |
| Tags.FromStringOfToString | src/domain/logic/item/GenericTag.java:65-108 | round trip: fromString of a tag's toString gives a tag equal to it |
| Tags.CompareToWhenToStringIsDisplayName | src/domain/logic/item/GenericTag.java:116-118 | when toString is the display name, compareTo is antisymmetric and zero exactly for equal tags |
| Tags.CompareToInconsistentWithEquals | src/domain/logic/item/GenericTag.java:116-118 | when a constant's toString differs from its display name, a tag equals itself yet compares non-zero with itself |
| Tags.FreshnessLabelsDistinct | src/database/DB.java:318-322 | the three freshness labels are distinct ignoring case |
| Tags.LookupFreshnessLabel | src/database/DB.java:249 | every freshness label the batch update writes reads back as its own constant |
| Database.FindFrom | src/database/DB.java:243-246 | the row rs.next() yields is the first with both that name and that container, or there is none |
| Database.ReadTag | src/database/DB.java:248-249 | a null column reads as null; otherwise the read succeeds exactly when fromString does, giving its constant |
| Database.ReadRow | src/database/DB.java:248-252 | a row reads as an item exactly when both tag columns read; the item has the row's name, quantity, expiry and tags |
| Database.SelectItem | src/database/DB.java:238-260 | getItem is null exactly when no row has both that name and that container; otherwise it is a matching row read back, or the exception of a matching row with an unknown tag |
| Database.ReadAll | src/database/DB.java:297-314 | retrieveItems as a function of the rows; what it returns is stated by ReadAllMeaning |
| Database.ReadAllMeaning | src/database/DB.java:297-313 | retrieveItems' list holds, for each row of the container in order, what getItem returns for its name, or the call throws getItem's exception for one of them |
| Database.ReadAllFindsEveryRow | src/database/DB.java:304-306 | the list retrieveItems returns holds no null |
| Database.RowsIn | src/database/DB.java:301 | the rows selected are exactly the rows of that container |
| Database.WithoutName | src/database/DB.java:221 | deleting by name keeps exactly the rows with another name, whatever their container |
| Database.WithoutKey | src/domain/logic/item/ItemUtility.java:32 | deleting an item of a container keeps exactly the rows without both that container and that name |
| Database.WithoutContainer | src/database/DB.java:165 | emptying a container keeps exactly the rows of other containers |
| Database.LabelOf | src/database/DB.java:264-269 | a SET clause is written exactly for a non-null new tag, and it writes that constant's display name |
| Database.Classify | src/database/DB.java:318-322 | Expired exactly when expiry < today; Near_Expiry exactly when today < expiry <= today + 7; Fresh exactly when expiry == today or expiry > today + 7 |
| Database.Refreshed | src/database/DB.java:316-322 | the batch update keeps the number of rows |
| Database.RefreshedAll | src/domain/logic/item/ItemUtility.java:250-254 | updating each container in turn keeps the number of rows |
| Database.WithoutContainerName | src/database/DB.java:121 | deleting a container keeps exactly the other container names |
| Database.Renamed | src/database/DB.java:143 | renaming keeps the number of container rows |
| Database.RenamedFound | src/database/DB.java:143 | after a rename the old name is gone, and the new name is present exactly when it or the old name was present |
| Database.CountKey | src/database/DB.java:194-201 | no row has the key exactly when the count is zero |
| Database.CountKeyAppend | src/database/DB.java:194-201 | appending a row adds one to the count exactly when the row has that key |
| Database.DB.constructor | src/database/DB.java:17-19 | a new store has no containers and no items, so its keys are unique |
| Database.DB.Valid | src/database/DB.java:194-201 | no two item rows share a container and a name |
| Database.DB.PutContainer | src/database/DB.java:44-57 | one container row is appended; the items are unchanged |
| Database.DB.RetrieveContainers | src/database/DB.java:65-84 | the loop returns every container name in table order |
| Database.DB.FindContainer | src/database/DB.java:92-109 | true exactly when some row of the container table has that name |
| Database.DB.AddContainer | src/database/DB.java:178-181 | addContainer appends the container row exactly as putContainer does |
| Database.DB.RemoveContainer | src/database/DB.java:116-129 | only the container rows with that name are deleted; the items stay |
| Database.DB.EditContainer | src/database/DB.java:137-152 | container rows called prevName are renamed; the items keep the old container name |
| Database.DB.EmptyContainer | src/database/DB.java:159-170 | the items of that container are deleted and nothing else; keys stay unique |
| Database.DB.GetItem | src/database/DB.java:238-260 | getItem reads the current item table as SelectItem states |
| Database.DB.RetrieveItems | src/database/DB.java:297-314 | the loop over the container's rows yields the list of getItem answers, or the first exception |
| Database.DB.AddItem | src/database/DB.java:190-207 | nothing changes when getItem finds the item, and getItem's exception propagates; otherwise exactly one row is appended, with that name and container, the item's quantity and expiry, and no tags; keys stay unique |
| Database.DB.RemoveItem | src/database/DB.java:215-229 | every row with that name is deleted, in every container; keys stay unique |
| Database.DB.RemoveItemFrom | src/domain/logic/item/ItemUtility.java:32 | the two-argument removeItem deletes the rows with both that container and that name; keys stay unique |
| Database.DB.UpdateItem | src/database/DB.java:262-289 | with both new tags null nothing changes; otherwise exactly the non-null tag columns of the rows matching name and container are set; keys stay unique |
| Database.DB.UpdateItemFoodGroup | src/domain/logic/item/ItemUtility.java:141 | the food-group column of the matching rows becomes the group's display name; keys stay unique |
| Database.DB.UpdateQuantity | src/domain/logic/item/ItemUtility.java:235 | the quantity of the matching rows becomes the new quantity; keys stay unique |
| Database.DB.BatchUpdateItemFreshness | src/database/DB.java:316-333 | each row of the container gets the label of its classification; other rows are unchanged; keys stay unique |
| Database.SelectAfterInsert | src/database/DB.java:194-201 | after an insert where getItem found nothing, getItem returns the new item, untagged |
| Database.InsertKeepsKeysUnique | src/database/DB.java:194-201 | add-if-absent keeps (container, name) unique |
| Database.UniqueKeysHeadTail | src/database/DB.java:194-201 | keys are unique exactly when the first row's key is not repeated and the rest are unique |
| Database.WithoutNameKeepsKeysUnique | src/database/DB.java:221 | deleting by name keeps keys unique |
| Database.WithoutKeyKeepsKeysUnique | src/domain/logic/item/ItemUtility.java:32 | deleting one item keeps keys unique |
| Database.WithoutContainerKeepsKeysUnique | src/database/DB.java:165 | emptying a container keeps keys unique |
| Database.UpdateKeepsKeysUnique | src/database/DB.java:277 | an update that keeps names and containers keeps keys unique |
| Database.RefreshedKeepsKeysUnique | src/database/DB.java:316-327 | the batch update keeps (container, name) unique |
| Database.RefreshedAllKeepsKeysUnique | src/domain/logic/item/ItemUtility.java:246-255 | refreshing each container in turn keeps (container, name) unique |
| Database.UpdateItemTouchesOnlyItsRow | src/database/DB.java:262-285 | updateItem changes only the tag columns of the row matching both name and container |
| Database.RemoveItemIgnoresContainer | src/database/DB.java:215-221 | after removeItem, getItem finds no item of that name in any container, whichever container removeItem was given |
| Database.SelectAfterRemoveFrom | src/domain/logic/item/ItemUtility.java:30-33 | after the deletion getItem finds nothing under that name in that container, and answers for every other container as before |
| Database.SelectIgnoresOtherKeys | src/database/DB.java:243-246 | deleting the item of one container does not change what getItem returns for the same name in another container |
| Database.FirstRowShift | src/database/DB.java:246 | the first matching row is the head when it matches, and otherwise the first matching row of the tail |
| Database.FirstRowIgnoresOtherKeys | src/database/DB.java:243-246 | deleting the item of one container leaves the first row matching the same name in another container unchanged |
| Database.RefreshedRows | src/database/DB.java:318-327 | each row of the container gets its classification label, and rows of other containers are unchanged |
| Database.RefreshedIdempotent | src/database/DB.java:318-327 | a second batch update on the same day changes nothing |
| Database.RefreshedAllRows | src/domain/logic/item/ItemUtility.java:246-255 | after refreshing a list of containers, each row in one of them carries its classification label and every other row is unchanged |
| Database.SelectAfterRefresh | src/database/DB.java:318-322 | after the batch update getItem reads the classification of the item's expiry back as its freshness tag |
| Database.AddItemTwice | src/database/DB.java:190-207 | adding the same container and name twice leaves one row with the first call's data, and the second call is a no-op; keys stay unique |
| ItemUtility.IsQuantityValid | src/domain/logic/item/ItemUtility.java:92-99 | a valid quantity text is non-empty and starts with a digit or '+' |
| ItemUtility.QuantityValidIffPositive | src/domain/logic/item/ItemUtility.java:92-99 | the decimal text of an int is a valid quantity exactly when the int is positive |
| ItemUtility.QuantityExamples | src/domain/logic/item/ItemUtility.java:92-99 | "-1", "0" and "not a number" are invalid quantities and "10" is valid |
| ItemUtility.ValidateExpiryDate | src/domain/logic/item/ItemUtility.java:101-124 | -1 exactly when the text is not a date; 1 exactly when the expiry day is before today; otherwise 0 |
| ItemUtility.ExpiryTodayAccepted | src/domain/logic/item/ItemUtility.java:107-120 | an item expiring today is accepted at any time of that day |
| ItemUtility.AcceptedExpiryNotExpired | src/domain/logic/item/ItemUtility.java:117-120 | an accepted expiry date is never classified Expired by the batch update on the same day |
| ItemUtility.VerifyAddItem | src/domain/logic/item/ItemUtility.java:49-90 | accepted exactly when the trimmed name is non-empty and at most 50 chars, the quantity is valid and the expiry is a date not yet passed; a rejection passes exactly one message to the handler, an acceptance none |
| ItemUtility.CheckFields | src/domain/logic/item/ItemUtility.java:55-89 | on the trimmed fields: accepted exactly when the name is non-empty and at most 50 chars, the quantity is valid and the expiry is a date not yet passed; a rejection carries exactly one message, an acceptance none |
| ItemUtility.FirstFailure | src/domain/logic/item/ItemUtility.java:69-87 | the message reported is that of the first failing rule in priority order, and none is reported when no rule fails |
| ItemUtility.FirstFailureOfSix | src/domain/logic/item/ItemUtility.java:69-87 | the first failure of the six rules is the else-if chain over them |
| ItemUtility.EmptyExpiryIsBadFormat | src/domain/logic/item/ItemUtility.java:58-64 | an empty expiry date is also a badly formatted one |
| ItemUtility.CheckFieldsFollowsPolicy | src/domain/logic/item/ItemUtility.java:60-89 | the checks equal the two-tier policy: two or more invalid fields give the aggregate message, otherwise the first failing rule's message in priority order, otherwise acceptance |
| ItemUtility.VerifyAddItemFollowsPolicy | src/domain/logic/item/ItemUtility.java:49-89 | verifyAddItem is the two-tier policy applied to the trimmed fields |
| ItemUtility.AggregateMessageWhenSeveralInvalid | src/domain/logic/item/ItemUtility.java:62-68 | two or more invalid fields always give the aggregate message |
| ItemUtility.ParseMonthOfLowerOct | src/domain/logic/item/ItemUtility.java:102-105 | the lower-case month "oct" reads as October |
| ItemUtility.ParseDateExample | src/domain/logic/item/ItemUtility.java:102-105 | "2-oct-2099" reads as 2 October 2099 |
| ItemUtility.ParseFieldsExample | src/domain/logic/item/ItemUtility.java:102-105 | the fields "2", "oct" and "2099" read as 2 October 2099 |
| ItemUtility.DigitsExample | src/domain/logic/item/ItemUtility.java:102-105 | "2099" and "2" are digit fields with the values 2099 and 2 |
| ItemUtility.SplitDateExample | src/domain/logic/item/ItemUtility.java:102-105 | "2-oct-2099" splits into "2", "oct" and "2099" |
| ItemUtility.VerifyAddItemExamples | src/domain/logic/item/ItemUtility.java:49-90 | ("", "10", "2-oct-2099") gets the empty-name message; ("", "abc", "") gets the aggregate message; ("Apple", "10", "2-oct-2099") is accepted |
| ItemUtility.VerifyDeleteItem | src/domain/logic/item/ItemUtility.java:30-37 | when getItem finds the item it is deleted and the result is true; when not, the result is false and nothing changes; getItem's exception propagates with nothing changed; keys stay unique |
| ItemUtility.EditRequestOf | src/domain/logic/item/ItemUtility.java:216-237 | a request to set a quantity is only ever for a positive 32-bit value |
| ItemUtility.EditRequestOfIntText | src/domain/logic/item/ItemUtility.java:220-237 | the text of an int is refused below zero, asks for deletion at zero and sets that quantity above zero |
| ItemUtility.EditRequestOfBlank | src/domain/logic/item/ItemUtility.java:220-224 | empty and all-blank input is refused as empty |
| ItemUtility.EditRequestOfWords | src/domain/logic/item/ItemUtility.java:225-241 | "abc" is refused as not a number |
| ItemUtility.EditRequestOfNumbers | src/domain/logic/item/ItemUtility.java:225-231 | "-5" is refused as negative and "0" asks for deletion |
| ItemUtility.EditRequestExamples | src/domain/logic/item/ItemUtility.java:216-242 | null is ignored; "" and "   " are empty; "abc" is not a number; "-5" is negative; "0" asks for deletion |
| ItemUtility.VerifyEditQuantity | src/domain/logic/item/ItemUtility.java:214-244 | for each kind of input: the one message passed to the handler, whether the callback runs once, and the new table (unchanged, the item deleted, or its quantity set); the exception from getItem during deletion propagates; keys stay unique |
| ItemUtility.UpdateItemFoodGroupTag | src/domain/logic/item/ItemUtility.java:139-143 | the food group is set only for column 3 and a FoodGroup value; otherwise nothing changes; keys stay unique |
| ItemUtility.AssignFoodFreshness | src/domain/logic/item/ItemUtility.java:182-184 | the container's rows get their classification labels; keys stay unique |
| ItemUtility.UpdateFreshness | src/domain/logic/item/ItemUtility.java:246-255 | the loop applies the batch update to every container retrieveContainers lists, in order, and leaves the container table as it was; keys stay unique |

## Left out

- JDBC (connections, statements, `SQLException` handling and `printStackTrace`) is replaced by the in-memory tables. Storage failures are not modelled: every statement is taken to succeed.
- The injection-prone string building of the SQL is not modelled. Names are compared as whole values.
- The clock is not modelled. `new Date()` is the parameter `now`, and `CURRENT_DATE` is the parameter `today`. Time zones and daylight saving are not modelled: `now` counts local milliseconds from the start of day 0.
- `SimpleDateFormat` is approximated by a simplified non-lenient `dd-MMM-yyyy` reader. These library behaviours are not modelled:
  - prefix parsing, where text after the year is ignored;
  - a day or year whose digits exceed the int range, which Java narrows with `intValue` before validating;
  - digits other than ASCII ones, which Java's number parsing also accepts;
  - locale month names other than English;
  - the Julian calendar before 1582;
  - years below 1.
- `Integer.parseInt` accepts ASCII digits only; Java also accepts other Unicode digits.
- `String.trim`, `equalsIgnoreCase` and `compareTo` work on Dafny chars, which are Unicode scalar values. Java works on UTF-16 units, so names outside the Basic Multilingual Plane differ in length and ordering. Case folding covers ASCII letters only.
- Tags.GenericTag.HashCode: the hash of an enum constant (its identity hash in Java) is a parameter `constantHash`. Only the wrapping into the int range and the null case are stated.
- Tags.GenericTag.ToString: requires a non-null tag. On a null tag Java throws a `NullPointerException`, which the model does not represent.
- Tags.GenericTag.CompareTo: requires both tags to be non-null. On a null tag or a null argument Java throws a `NullPointerException`, which the model does not represent.
- Tags.GenericTag.Copy: takes a non-null tag. Java's copy constructor throws a `NullPointerException` on a null argument, which the model does not represent.
- Tags.GenericTag.GetTag, Tags.GenericTag.ToString and Tags.GenericTag.CompareTo are plain accessors and expressions with no contract. Their properties are stated by the lemmas about them.
- `initItems`, `dateFormat` and `retrieveStorageTip` in ItemUtility.java are not modelled. They fill a Swing table model, format through the library, or only forward to the store (`getItemTag`, `getStorageTip`, which are not part of this model).
- The GUI views (ItemsListView.java, AllItemsView.java) are not part of this model.
- FoodGroup.java, FoodFreshness.java, Item.java and Container.java are not part of this model:
  - the food-group enumeration is a type parameter;
  - the freshness display names are taken to be the SQL labels;
  - `Item.getInstance` is taken to build the item from its arguments;
  - a container is represented by its name.
- DB.java does not define the two-argument `removeItem`, `updateItemFoodGroup` or `updateQuantity`. They are modelled by `RemoveItemFrom`, `UpdateItemFoodGroup` and `UpdateQuantity`, each assumed to act on the rows matching both container and name.
- The `expiry` column holds a day number. `ite.getExpiryDate()` is taken to be that day, without the text round trip through the SQL literal.
- Database.DB.GetItem is stated in terms of `SelectItem`. The properties of reading back are the ensures of `SelectItem`.
- Database.DB.constructor: Java's `new DB()` only opens a handle on the existing tables and empties nothing. The model starts from an empty database; a store that already holds rows is reached through the operations.
