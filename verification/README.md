# Verified models of the web application

A Dafny 4.11 model of how this repository prints, queries, caches, stores and routes, with proofs of what
they keep, restore and compute:

- the **HTML printer** for Redfish payloads (`src/core/route/redfish/response.cpp`): the table-driven
  UTF-8 decoder, the string escaper with its 512-byte buffer, the integer printer, and the recursive
  tree printer. An unescaper and a tag reader are written to prove the output against, and the text is
  shown to determine the payload;
- the **GraphQL handler** (`src/core/route/handlers/graphql_handler.cpp`): a visitor with a chain of
  mutable builders that fill rows of all instances field by field, proved against a meaning of
  queries that evaluates one instance at a time;
- the **spin guards** of the D-Bus connection: interleaved steps of any number of threads;
- the **session store** and its **configuration files**: expiry over time, commit and restore;
- the **object cache** and **member filling** behind the entities: caches kept in step by signals;
- the **boot fields** of the server: the derived boot mode and the ordered pass of providers;
- **cached sources**: nested filling along any graph of dependencies;
- the **routing tree** of Redfish nodes: resolving a URI, with the parameters accepted on the way, and the
  links that nodes emit.

Code that changes state step by step is modelled as classes and methods with loops, each proved
against a function of its inputs or old state; the properties are then proved of those functions.
Concurrency is modelled as a state machine. Where a property that one would expect does not hold of
the code, the model keeps the code as it is, a lemma names the case, and the exact condition is
proved instead.

`dafny verify dfyconfig.toml` checks the whole project.

| module | about |
|---|---|
| `Utf8`, `Escaper`, `Unescaper`, `Numerals`, `HtmlPrinter`, `TagReader`, `HtmlInverse` | the HTML printer |
| `Entities`, `GraphqlSemantics`, `GraphqlAliases`, `GraphqlHandler` | GraphQL queries |
| `Guards` | the spin guards |
| `Sessions`, `ConfigFiles` | sessions and their files |
| `ObjectCache`, `Properties`, `HostBoot`, `ServerBoot`, `CachedSources` | entities and their caches |
| `Parameters`, `Routing`, `RedfishTree`, `VlanExample`, `UriText` | the Redfish node tree, its parameters, and texts in URIs |
| `Options` | values that may be absent |

## Where the code is not what one would expect

- Ill-formed bytes never flush the escaper's buffer, so one of them behind 499 letters and in front of a
  character above U+FFFF overruns it (`Escaper.IllFormedInputCanOverrun`, `Escaper.ShortRunsFit`);
  `Escaper.DumpEscaped` says exactly when all writes stay inside.
- A backslash is printed as itself, so a text in which one is followed by the rest of an escape cannot be
  read back; `Unescaper.ReadsBackExactly` has the exact condition and `Unescaper.UnreadableIsAmbiguous` the
  other string.
- The alias of a scalar GraphQL field is looked up as the member name (`GraphqlAliases.AnsweredAsMeantIff`,
  `GraphqlAliases.AliasedMemberIff`).
- A relation whose rules name a missing source member fails only where there are instances to join
  (`GraphqlSemantics.FailureIsSchemaOnly`).
- A long-term configuration file without an identifier makes both files be written before the second
  is read, and the sessions in it are lost (`ConfigFiles.SecondFileIsReadIff`,
  `ConfigFiles.SessionsLostWithLongTermFile`).
- Removing one of several interfaces of interest drops an object that still has another
  (`ObjectCache.AlwaysExactIff`).
- Names that differ only in spaces against underscores share a link (`UriText.SameSegmentIff`), and a name
  with an underscore is not found by its own (`RedfishTree.NameLinkLeadsIff`).
- A node whose entity is that of the parameter above it answers every segment if the entity is related to itself
  (`Parameters.AnswersEverySegmentIff`), so any URI below the VLANs of an Ethernet interface is found
  (`VlanExample.AnythingIsAVlan`); if it is not, only the name above is accepted (`Parameters.SameEntityIff`).
- A node on the way to another is asked twice, the second time with the parameter it has just accepted
  (`Parameters.SecondLook`, `RedfishTree.SettledIff`).
- Formatters are looked up by the name of the property alone (`Properties.OwnFormattersIff`,
  `Properties.SecondTakesFirstFormatters`). This is a property of the look-up: of the tables declared in the repository only
  that of the Ethernet interfaces reads one property name twice, `InterfaceName`, and without formatters
  (`src/network_interface.hpp:408`, `src/network_interface.hpp:421`).
- A boot source that is not recognised leaves the mode of the one before (`HostBoot.IncrementalIsFreshIff`,
  `HostBoot.ModeIsLeftOver`).
- A failure of a supplement provider's queries does not make its entity due again (`CachedSources.DueAgainIff`).
- Without a host boot object nothing resets the server's boot fields (`ServerBoot.TripleResetIff`), and the
  boot source is not reset with them (`ServerBoot.SourceResetIff`).
- A guard that is destroyed without having been called frees a lock that another thread owns
  (`Guards.StepKeepsInv`); the code always calls its guards.

## Model

| member | source | states |
|---|---|---|
| Utf8.EncodeIsChar | src/core/route/redfish/response.cpp:172-210 | Every scalar value has a character of the grammar that encodes it, and that character's value is the scalar |
| Utf8.EncodeInvertsScalarOf | src/core/route/redfish/response.cpp:172-210 | Every character of the grammar is the encoding of its scalar value |
| Utf8.EncodeAllInvertsScalars | src/core/route/redfish/response.cpp:172-210 | Well-formed byte strings and lists of scalar values: decoding and encoding again is the identity |
| Utf8.ScalarsInvertEncodeAll | src/core/route/redfish/response.cpp:172-210 | Any list of scalar values encodes to a well-formed byte string that decodes to the list |
| Utf8.PendingIsInitial | src/core/route/redfish/response.cpp:197-209 | The byte strings that leave the automaton between characters are exactly the proper starts of characters |
| Utf8.StepState | src/core/route/redfish/response.cpp:188-209 | The transition table read against the grammar: the next byte accepts, rejects or continues exactly when the bytes so far are a character, no start of one, or the start of one |
| Utf8.Step | src/core/route/redfish/response.cpp:197-209 | And the code point then is the encoded scalar, or the bits collected so far, with no loss in 32 bits |
| Utf8.AcceptsExactlyWellFormed | src/core/route/redfish/response.cpp:172-210 | Run from state 0, the table is back in state 0 exactly after concatenations of the sequences of section 4 of RFC 3629 |
| Utf8.AcceptedAreScalars | src/core/route/redfish/response.cpp:172-210 | The code points at the moments of acceptance are the encoded scalar values, one for each character |
| Escaper.SubpartIsMaximal | src/core/route/redfish/response.cpp:367-404 | The bytes that one replacement stands for are a maximal subpart of an ill-formed sequence (section 3.9 of the Unicode Standard) |
| Escaper.DecodedOfWellFormed | src/core/route/redfish/response.cpp:212-423 | On well-formed input the recursive decoder with replacement gives the scalar values |
| Escaper.AsciiIsOneByte | src/core/route/redfish/response.cpp:342-347 | A code point below 0x80 comes from the single byte that the escaper copies |
| Escaper.PutEscape | src/core/route/redfish/response.cpp:229-350 | The escape of a new code point is written behind the buffered text, and the cells it touches, terminator included, say whether that stays in the buffer |
| Escaper.Accept | src/core/route/redfish/response.cpp:229-365 | With the flush: printed and buffered text together grow by the escape and nothing else; the index afterwards |
| Escaper.Replace | src/core/route/redfish/response.cpp:367-395 | A replacement follows the last accepted character |
| Escaper.Round | src/core/route/redfish/response.cpp:223-406 | One round of the loop, the step back included: printed, buffered and remaining text stay the same whole; the remaining bytes or the undecided ones shrink |
| Escaper.DumpEscaped | src/core/route/redfish/response.cpp:212-423 | For every byte string the output is the escapes of the recursive decoder, and every buffer write stays inside exactly when the predicate on the decoded units holds |
| Escaper.WellFormedFits | src/core/route/redfish/response.cpp:318-359 | On well-formed input every write to the 512 cells stays inside: the index is at most 499 at each loop head |
| Escaper.IllFormedRunNeedsSixEach | src/core/route/redfish/response.cpp:367-398 | Bytes that start no character need six cells each, as nothing flushes between them |
| Escaper.ShortRunsFit | src/core/route/redfish/response.cpp:212-423 | Any input fits, wherever the index stands, if no run of ill-formed units, six cells each, needs more than the thirteen kept in reserve together with the character behind it |
| Escaper.RunAfterLettersFitsIff | src/core/route/redfish/response.cpp:350-406 | At most 499 letters, a run of ill-formed bytes and a character fit exactly when the cells of all three do |
| Escaper.IllFormedInputCanOverrun | src/core/route/redfish/response.cpp:214-214 | One ill-formed byte is enough to overrun the buffer, between 499 letters and a character above U+FFFF |
| Escaper.LongBufferFits | src/core/route/redfish/response.cpp:214-214 | With thirteen cells for each input byte any input fits |
| Escaper.EscapedIsInert | src/core/route/redfish/response.cpp:229-350 | The output never holds an angle bracket or a quotation mark of either kind |
| Unescaper.ParseInvertsHex | src/core/route/redfish/response.cpp:321-341 | Hexadecimal digits as printed denote the number printed |
| Unescaper.SurrogatesJoin | src/core/route/redfish/response.cpp:330-340 | The two numbers printed for a code point above U+FFFF are a surrogate pair for it (section 2.1 of RFC 2781) |
| Unescaper.UnescapeInvertsEscapeIff | src/core/route/redfish/response.cpp:229-365 | A list of scalar values is recovered from its text exactly when no backslash in it is followed by the rest of an escape |
| Unescaper.EscapeInvertsUnescape | src/core/route/redfish/response.cpp:229-365 | Whatever is read, the escaper prints back |
| Unescaper.ReadsBackExactly | src/core/route/redfish/response.cpp:212-423 | Exactly the well-formed strings in which no backslash is followed by the rest of an escape can be read back from their output |
| Unescaper.ReadIsCanonical | src/core/route/redfish/response.cpp:212-423 | Whatever is printed, for ill-formed strings too, can be read, and what is read prints the same text: of all strings with that text it is the only readable one |
| Unescaper.UnreadableIsAmbiguous | src/core/route/redfish/response.cpp:233-238 | Every string that cannot be read back shares its text with another string |
| Unescaper.IllFormedIsReplaced | src/core/route/redfish/response.cpp:367-423 | Any byte string, ill-formed ones included, is printed as its characters with U+FFFD for each ill-formed part or unfinished end, and is read back as those exactly when no backslash among them is followed by the rest of an escape |
| Unescaper.KnownTexts | src/core/route/redfish/response.cpp:229-347 | Which byte has which text of its own, and that every other printable one stands for itself |
| Unescaper.PrintedNumber | src/core/route/redfish/response.cpp:318-341 | Any other character up to U+FFFF is printed as `\u` and the four lower-case hexadecimal digits that denote its scalar value |
| Unescaper.KnownPair | src/core/route/redfish/response.cpp:330-341 | The four bytes of U+1F600 are printed as `\ud83d\ude00` |
| Numerals.ValueInvertsDecimal | src/core/route/redfish/response.cpp:455-541 | The numeral denotes the number and has no zero in front |
| Numerals.DecimalInvertsValue | src/core/route/redfish/response.cpp:455-541 | No other numeral without a zero in front denotes it |
| Numerals.AtMostTwentyDigits | src/core/route/redfish/response.cpp:509-513 | A 64-bit number has at most twenty digits, so the early return is never taken |
| Numerals.CountDigits | src/core/route/redfish/response.cpp:425-449 | Counting four digits at a time gives the length of the numeral |
| Numerals.FillBackward | src/core/route/redfish/response.cpp:515-538 | The backward fill, two digits at a time, stops exactly at the cell where the numeral begins and leaves the cells before it alone |
| Numerals.DumpInteger | src/core/route/redfish/response.cpp:451-541 | For every 64-bit value of either type except the smallest: the output is kept and a text is appended, for a negative number a minus sign and a numeral whose value is the number's opposite, for any other a numeral whose value is the number, without a zero in front of another digit |
| Numerals.ValueIsPositional | src/core/route/redfish/response.cpp:515-538 | The ten digits have their values, and one more digit behind a numeral means ten times its value and the digit's |
| HtmlPrinter.Dump | src/core/route/redfish/response.cpp:625-760 | The text of the whole tree is appended (which text that is: TagReader.MemberIsPrinted, TagReader.WordsArePrinted), and all writes of all strings stay in their buffers exactly when each string's do |
| HtmlPrinter.DumpMembers | src/core/route/redfish/response.cpp:639-668 | The loop over an object's members |
| HtmlPrinter.DumpMember | src/core/route/redfish/response.cpp:641-661 | One member: its key, and its value inside a link tag if it is a link |
| HtmlPrinter.DumpItems | src/core/route/redfish/response.cpp:687-696 | The loop over an array's items |
| HtmlPrinter.WellFormedPayloadFits | src/core/route/redfish/response.cpp:625-760 | If all strings of a payload are well-formed, every write stays in bounds |
| TagReader.WellNestedExactly | src/core/route/redfish/response.cpp:625-760 | The output is well nested, elements and quoted attributes closed in order, exactly for payloads without discarded values, whatever the keys and strings hold; its link tags are those of the payload, in order |
| TagReader.ReadHtml | src/core/route/redfish/response.cpp:625-760 | The same at any depth: what a reader that is inside any open elements makes of the text of a value |
| TagReader.LinksAreTagged | src/core/route/redfish/response.cpp:647-666 | Reading the text of an object with one member finds one link, to the escaped string, if the key is one of the four and the value a string, and no tag but the box for any other key or other scalar value |
| TagReader.MemberIsPrinted | src/core/route/redfish/response.cpp:636-682 | The whole text of an object with one member, the keys given byte by byte |
| TagReader.WordsArePrinted | src/core/route/redfish/response.cpp:677-760 | The words for null, true, false and a discarded value, the quotation marks, the empty object and array, and what stands between two items |
| TagReader.MembersAreKeptApart | src/core/route/redfish/response.cpp:636-673 | What stands between and behind the members of an object |
| TagReader.IntegerIsPrinted | src/core/route/redfish/response.cpp:726-736 | The text of an integer in a payload denotes it, with its sign |
| HtmlInverse.HtmlIsInjective | src/core/route/redfish/response.cpp:625-760 | Two payloads whose keys and strings can be read back, without discarded values and floats that are not finite, print the same text only if they are the same |
| HtmlInverse.ValueIsUnique | src/core/route/redfish/response.cpp:625-760 | At any depth: in front of a comma, a tag or the end, the text of a value determines the value and where it ends |
| HtmlInverse.KeyIsUnique | src/core/route/redfish/response.cpp:641-643 | A key ends where its delimiter first stands, as the escapes in it cannot be taken for one |
| UriText.UrlEncode | src/core/helpers/utils.hpp:109-132 | Each byte is kept if unreserved and percent-encoded otherwise |
| UriText.DecodeInvertsEncode | src/core/helpers/utils.hpp:109-132 | Any byte string is recovered from its percent-encoding (section 2.1 of RFC 3986) |
| UriText.EncodedIsPlain | src/core/helpers/utils.hpp:109-132 | The encoding holds only unreserved characters and percent signs |
| UriText.BytesAreEncoded | src/core/helpers/utils.hpp:109-132 | Byte by byte: ASCII letters, digits and the four marks of section 2.3 of RFC 3986 stand for themselves, every other byte is a percent sign and two upper-case hexadecimal digits that denote it |
| UriText.SegmentIsReadBackIff | src/core/route/redfish/response.hpp:259-269 | A name is recovered from its path segment exactly when it has no underscore |
| UriText.SameSegmentIff | src/core/route/redfish/response.hpp:259-269 | Two names share a segment exactly when they agree up to spaces against underscores |
| Entities.SelectExactly | src/core/entity/entity.cpp:324-371 | The selected instances are those that meet every condition |
| Entities.SelectIsOrdered | src/core/entity/entity.cpp:324-371 | In the order of their hashes |
| Entities.GetInstances | src/core/entity/entity.cpp:324-371 | The loop with the early exit from the conditions computes the selection |
| Entities.GetRelation | src/core/entity/entity.cpp:499-521 | The first relation with the destination's name |
| Entities.FirstRelationIs | src/core/entity/entity.cpp:499-521 | It is the one that no other of that name stands in front of |
| Entities.GetConditions | src/core/entity/entity.cpp:41-70 | The conditions seen from a source instance, dummy rules included, or the first source member that is missing |
| GraphqlSemantics.RowIsFirstWins | src/core/route/handlers/graphql_handler.cpp:308-310 | A row holds exactly the response keys asked for, each with the value of the first field that has the key |
| GraphqlSemantics.ListEntityGivesList | src/core/route/handlers/graphql_handler.cpp:386-402 | For an array entity a field shows a list with exactly one row for each related instance, in order, also if there is one or none |
| GraphqlSemantics.SingleEntityGivesRow | src/core/route/handlers/graphql_handler.cpp:386-402 | For any other it shows the one row, an empty object without one, and a list if there are several |
| GraphqlSemantics.ScalarGivesMember | src/core/route/handlers/graphql_handler.cpp:291-331 | A scalar shows the instance's member, null if it was never set |
| GraphqlSemantics.RelatedExactly | src/core/entity/entity.cpp:41-70 | The related instances are those of the destination for which every rule holds between the members of the two, null of the source standing as its text, the dummy member as none |
| GraphqlSemantics.EntityAnswer | src/core/route/handlers/graphql_handler.cpp:379-402 | The whole answer to a query for one entity, under its alias or its name |
| GraphqlSemantics.UnknownNamesFail | src/core/route/handlers/graphql_handler.cpp:118-189 | The failures for an unknown entity, relation or member, and for a scalar at the root |
| GraphqlSemantics.MissingMemberThrows | src/core/entity/entity.cpp:47-53 | A relation followed from instances throws for the first rule whose source member its entity does not have |
| GraphqlAliases.AnsweredAsMeantIff | src/core/route/handlers/graphql_handler.cpp:184-185 | A query with objects at its root and no response key twice in a selection is answered as it is meant, in every world, exactly when each of its scalars has its own name for a response key |
| GraphqlAliases.AliasedMemberIff | src/core/route/handlers/graphql_handler.cpp:184-185 | In one world: a member asked for under an alias is answered as meant exactly when the alias is a member too and has the same value in every instance |
| GraphqlSemantics.FailureIsSchemaOnly | src/core/entity/entity.cpp:41-70 | Whether and how any query fails is independent of the instances exactly when the rules of every relation that can be followed resolve |
| GraphqlSemantics.UnresolvedRelationFails | src/core/entity/entity.cpp:53-53 | Otherwise one query fails with an instance and not without |
| GraphqlHandler.GqlObjectBuild.LookupsSucceed | src/core/route/handlers/graphql_handler.cpp:371-410 | A builder with a row for each instance finds every row it looks up, whatever instance it is joined to; it fails only for a source member that is missing |
| GraphqlHandler.GqlObjectBuild.Supplement | src/core/route/handlers/graphql_handler.cpp:291-331 | A scalar adds one value to every row, the first for a key staying, or fails as the meaning says |
| GraphqlHandler.GqlObjectBuild.GetFragment | src/core/route/handlers/graphql_handler.cpp:365-411 | The rows that belong to a parent instance, as array, object or empty object; an internal failure if one of them is not there |
| GraphqlHandler.GqlObjectBuild.SupplementChild | src/core/route/handlers/graphql_handler.cpp:333-363 | Each row of the parent gets what the child has for its instance; the failure of a join, exactly when there is a row |
| GraphqlHandler.GqlObjectBuild.PushFragmentToParent | src/core/route/handlers/graphql_handler.cpp:428-437 | The same through the link to the parent, under the alias if there is one |
| GraphqlHandler.JoinIsFieldValue | src/core/route/handlers/graphql_handler.cpp:379-402 | The join of a finished child is the value of its field at the parent's instance |
| GraphqlHandler.GqlQueryVisitor.VisitField | src/core/route/handlers/graphql_handler.cpp:118-189 | Entering a field: a new builder with empty rows in front of the old one, a value in each row, or a failure |
| GraphqlHandler.GqlQueryVisitor.EndVisitField | src/core/route/handlers/graphql_handler.cpp:191-202 | Leaving it: back at the parent, whose rows have the field's value |
| GraphqlHandler.GqlQueryVisitor.AcceptAll | src/core/route/handlers/graphql_handler.cpp:118-202 | The walk over a list of fields supplements every row by all of them and returns to the same builder |
| GraphqlHandler.Run | src/core/route/handlers/graphql_handler.cpp:118-207 | For every query and snapshot the visitor and its builders give the answer found instance by instance, with aliased scalars replaced; the answer itself if each scalar has its own name for a response key; and never the internal failure. What that answer looks like is said without its definitions in the `GraphqlSemantics` rows from ListEntityGivesList on |
| Guards.StepKeepsInv | src/core/connect/dbus_connect.hpp:70-110 | A step keeps the invariant exactly when it does not destroy an uncalled guard while somebody owns the lock |
| Guards.MutualExclusion | src/core/connect/dbus_connect.hpp:50-125 | In every run, any interleaving and nesting: at most one thread is inside guarded operations; the owner is the thread whose guard holds the lock, and zero exactly when there is none |
| Guards.OwnerChanges | src/core/connect/dbus_connect.hpp:77-110 | The owner changes only when an outermost guard takes a free lock or the one that holds it is destroyed; an inner guard never releases the outer one |
| Guards.InnerGuardNeverWaits | src/core/entity/dbus_query.hpp:430-439 | A guard of the owning thread fails its one swap, sees its own id and goes on, whatever other threads do |
| Guards.FreeGuardRuns | src/core/connect/dbus_connect.hpp:77-110 | On a free lock a guard swaps once and runs as the owner; ended and destroyed it leaves everything as it was |
| Guards.NestedGuardRuns | src/core/connect/dbus_connect.hpp:77-110 | Inside the owner's operation a guard runs without taking the lock, and leaves it to its owner at its end |
| Guards.ContendedGuardSleeps | src/core/connect/dbus_connect.hpp:77-110 | While another thread owns the lock a guard goes to sleep, and wakes to try again |
| Guards.CanAlwaysFinish | src/core/connect/dbus_connect.hpp:70-110 | From every state there is a way to the end of all guards, with the lock free |
| Sessions.SessionStore.ApplySessionTimeouts | src/service/session.cpp:355-374 | A sweep, at most once a second, erases exactly the sessions idle for the timeout |
| Sessions.SessionStore.LoginSessionByToken | src/service/session.cpp:256-274 | Found exactly if the token has its length and a session after the sweep; the session returned then has the present for the time of its last update, and no other one is changed |
| Sessions.LoginRefreshes | src/service/session.cpp:271-273 | A login that finds a session moves the time of its last update to the present and changes nothing else of it or of the other sessions that the sweep leaves |
| Sessions.SessionStore.GetSessionByUid | src/service/session.cpp:276-290 | A session with the identifier if there is one, after a sweep and without a refresh |
| Sessions.SessionStore.GenerateUserSession | src/service/session.cpp:168-174 | A new session, or the old one if its token is in use |
| Sessions.SessionStore.Restore | src/service/session.cpp:348-353 | A token that is there keeps its session; every key stays its session's token |
| Sessions.IdleIsBounded | src/service/session.cpp:256-274 | Over every run with a clock that does not go back, a session found had been idle for less than the timeout in force at the last sweep plus a second |
| Sessions.BoundIsSharp | src/service/session.cpp:355-374 | One nanosecond less is reached, for any timeout above a second |
| Sessions.ActiveIsFound | src/service/session.cpp:256-274 | The other side, in any run: a session that was added or found is found at a later login if less than the timeout has passed since, it was not removed, and the timeout was not changed in between |
| Sessions.ActiveIsFoundWithinAnHour | src/service/session.hpp:149-149 | That is an hour if the timeout was never set |
| ConfigFiles.SessionFromJson | src/service/session.cpp:28-91 | A session with what the element spells out, none exactly if one of four texts is missing |
| ConfigFiles.AuthFromJson | src/service/session.cpp:93-116 | Each method is set by the last flag under its key |
| ConfigFiles.ConfigFile.PopulateSessions | src/service/session.cpp:584-603 | The list of exactly the sessions of a file, in some order |
| ConfigFiles.ConfigFile.WriteData | src/service/session.cpp:525-542 | The file holds what belongs in it; the other one is left alone |
| ConfigFiles.ConfigFile.Commit | src/service/session.cpp:418-424 | Both files hold the present configuration |
| ConfigFiles.ConfigFile.ReadOne | src/service/session.cpp:431-523 | What reading one file restores, and when both files are written meanwhile |
| ConfigFiles.ConfigFile.ReadData | src/service/session.cpp:408-416 | What reading both restores |
| ConfigFiles.SpelledIsWritten | src/service/session.cpp:594-600 | A written session spells out itself |
| ConfigFiles.SessionIsRead | src/service/session.cpp:28-91 | Whatever the order of an element's members: which text under which key is which part of the session |
| ConfigFiles.MissingTextIsRead | src/service/session.cpp:73-78 | Without the address it is empty; without one of the other four texts nothing is restored |
| ConfigFiles.SwitchesAreRead | src/service/session.cpp:93-116 | Which flag under which key switches which method |
| ConfigFiles.MembersAreRead | src/service/session.cpp:450-510 | Whatever the order of a file's members: which of them gives the identifier, the timeout, the methods and the sessions |
| ConfigFiles.CommitThenReadIsIdentity | src/service/session.cpp:408-424 | Committing and reading back leaves the sessions and everything else in memory as they were |
| ConfigFiles.RestartRestores | src/service/session.cpp:431-510 | Read into an empty store, the files restore exactly the complete sessions that were to be kept, each to its storage, and the rest of the configuration |
| ConfigFiles.RestartWritesTheSame | src/service/session.cpp:584-603 | A commit after that writes the same file up to the order of the sessions, exactly when every session in it had its four texts |
| ConfigFiles.SecondFileIsReadIff | src/service/session.cpp:512-522 | The sessions of the second file are restored exactly when the first one is corrupt or leaves an identifier, or every complete element of the second one's lists has a token that is in use already |
| ConfigFiles.SessionsLostWithLongTermFile | src/service/session.cpp:431-523 | With the first file missing they are all lost; with the first file corrupt they are all restored |
| ObjectCache.CountExtraSegmentsOfPath | src/core/helpers/utils.hpp:27-43 | The number of pieces between slashes of what the path has beyond the namespace, slashes trimmed at both ends |
| ObjectCache.SplitJoins | src/core/helpers/utils.hpp:37-40 | Those pieces hold no slash and joined give the text |
| ObjectCache.CheckCriteria | src/core/entity/dbus_query.cpp:103-155 | An object meets the criteria by service, path prefix, depth and any interface of interest |
| ObjectCache.AddedExactly | src/core/entity/dbus_query.cpp:103-155 | Told by the names on the path below the namespace: an object of another service, too deep, or without an interface of interest leaves the cache alone; any other is there afterwards with the declared properties of its interfaces, and to be read again if it was there |
| ObjectCache.RemovedExactly | src/core/entity/dbus_query.cpp:861-910 | The object is removed under those conditions on the interfaces that were taken from it, and nothing else is |
| ObjectCache.EntityCache.OnInterfacesAdded | src/core/entity/dbus_query.cpp:789-859 | The object is inserted, or marked for a new reading with more interfaces, if it meets the criteria by all it has |
| ObjectCache.EntityCache.OnInterfacesRemoved | src/core/entity/dbus_query.cpp:861-910 | It is removed if a removed interface is of interest |
| ObjectCache.StepStaysExactIff | src/core/entity/dbus_query.cpp:789-910 | A change keeps the cache exact unless it removes one interface of interest and leaves another |
| ObjectCache.AlwaysExactIff | src/core/entity/dbus_query.cpp:789-910 | The cached keys are exactly the objects that meet the criteria after every change of a run, exactly when no removal in it is partial |
| ObjectCache.OneInterfaceIsAlwaysExact | src/core/entity/dbus_query.cpp:789-910 | For criteria with one interface they always are |
| Properties.ProcessFormatters | src/core/entity/dbus_query.cpp:769-787 | The formatters of the first setter of that property name, applied in order; an exception exactly if there is no such setter |
| Properties.FormattedByFirst | src/core/entity/dbus_query.cpp:769-787 | The value is formatted by the setter that no other one for its property stands in front of, the formatter listed last applied last |
| Properties.DBusInstance.FillMembers | src/core/entity/dbus_query.cpp:418-443 | Each setter whose property is reported writes its formatted value; the exception never comes up for an object made from its query's endpoints |
| Properties.DBusInstance.Initialize | src/core/entity/dbus_query.cpp:331-357 | A fresh read of all interfaces, skipping those that fail, and whether none did |
| Properties.DBusInstance.VerifyState | src/core/entity/dbus_query.cpp:359-365 | An object that is not initialized is read again before it is used, another is left alone |
| Properties.DBusInstance.OnPropertiesChanged | src/core/entity/dbus_query.cpp:499-535 | A change signal fills the members it reports, then the derived ones |
| Properties.IncrementalGives | src/core/entity/dbus_query.cpp:418-443 | After any run of signals a member that reflects one property holds the format of its last reported value |
| Properties.IncrementalEqualsFresh | src/core/entity/dbus_query.cpp:331-357 | An object read once and kept up to date by any run of signals agrees, in each member that reflects one property, with one read afresh from the bus as it is then |
| Properties.OwnFormattersIff | src/core/entity/dbus_query.cpp:1094-1110 | For any tables: a member holds its own setter's format of every value exactly when the first setter of that property name, on whatever interface, formats every value alike |
| Properties.SecondTakesFirstFormatters | src/core/entity/dbus_query.cpp:1094-1110 | Two interfaces with one property name: the member of the second holds the format of the first |
| HostBoot.HostBootInstance.FormatSource | src/server.hpp:512-530 | The mode becomes that of a recognised source unless it is one of the first two |
| HostBoot.OwnModeWins | src/server.hpp:484-530 | After any run of reports the mode is the last own value if that is one of the first two |
| HostBoot.LastRecognisedSourceWins | src/server.hpp:512-530 | Otherwise it is that of the source recognised last since the own value was reported |
| HostBoot.NoSourceNoMode | src/server.hpp:512-530 | And none if no source was |
| HostBoot.IncrementalIsFreshIff | src/server.hpp:595-600 | It agrees with a fresh read exactly when it is not left over from a source that has been replaced by one that is not recognised |
| HostBoot.ModeIsLeftOver | src/server.hpp:512-530 | After a disk and an unrecognised source the mode is that of the disk, and a fresh read has none |
| HostBoot.SignalsAreReports | src/server.hpp:557-600 | As a query with its two interfaces: any run of change signals leaves the two fields as the reports of this model do |
| HostBoot.SignalsAreFreshIff | src/server.hpp:557-600 | An object of that query, kept up to date by signals, has the mode of one read afresh from the bus exactly when none is left over |
| HostBoot.RecognisedSourcesAreFresh | src/server.hpp:595-600 | It always does when every reported source is recognised |
| HostBoot.ModeSignalIsShown | src/server.hpp:484-495 | By name and number: a signalled mode Safe or Setup is shown as 0 or 1, whatever was signalled before |
| HostBoot.SourceSignalIsShown | src/server.hpp:512-530 | And after a regular mode a signalled source as 2 for the disk, 3 for external media, 4 for the network, 5 for removable media and 6 for the default |
| ServerBoot.TargetInstance.SupplementOrUpdate | src/core/entity/dbus_query.cpp:588-599 | All members but metadata are copied, null as the text that stands for it |
| ServerBoot.LastInstanceIsCopied | src/core/entity/dbus_query.cpp:588-599 | Member by member: the last instance's value, the text for null, and what was there before for its metadata and what it does not have |
| ServerBoot.RunProviders | src/core/entity/entity.cpp:345-353 | A read runs every provider's every instance over the target, in order |
| ServerBoot.TripleAfterPass | src/server.hpp:885-896 | Override type, mode and type after a pass depend only on the provider snapshots: once beats continuous beats none (ServerBoot.OneTimeBootWins has the fields and enumerators) |
| ServerBoot.OneTimeBootWins | src/server.hpp:827-851 | By field and enumerator: the override type is 1 exactly if the one-time object is switched on and has a mode other than 6, with its mode and type; otherwise 0 with those of the host object if that one has such a mode, and 2 with mode 6 and no type if not |
| ServerBoot.ResetOrKept | src/core/entity/entity.cpp:345-353 | For any providers but the one that depends on the target: a pass either resets a field, whatever it held, or leaves it alone, as some instance writes it or none does |
| ServerBoot.TripleResetIff | src/server.hpp:827-851 | The three fields depend on nothing but the snapshots exactly when there is a host boot object, or a one-time object that counts and has a type; they stay whatever they were exactly when there is no host boot object and no one-time object counts |
| ServerBoot.SourceResetIff | src/server.hpp:827-851 | The boot source depends on the snapshots alone exactly when a boot object that is taken holds one; otherwise it stays, though the override may have ended |
| ServerBoot.AttemptsAfterReboots | src/server.hpp:853-862 | The attempts left are the last counter's, exactly while retries are configured, none otherwise, and what they were without a counter |
| ServerBoot.AttemptsShownWhileRetrying | src/server.hpp:853-862 | A counter's number is shown exactly while the retry setting is enumerator 0 |
| ServerBoot.AttemptsResetIff | src/server.hpp:853-862 | They are left alone exactly without a counter; they depend on nothing but the counter and the retry setting exactly with one, and not even on the setting exactly if the last counter has no number |
| ServerBoot.EarlierReadIsForgotten | src/core/entity/entity.cpp:336-353 | A read sets the default values and runs the providers; repeated over the same snapshots it shows what a first read would, whatever the default values were before |
| CachedSources.Sources.PopulateOnAccess | src/core/entity/entity.hpp:568-585 | An access fills what is due and not being filled, terminating on any graph |
| CachedSources.Sources.ProcessQueries | src/core/entity/entity.cpp:444-466 | First the providers' queries and then the own ones access the entities they depend on, in order; only a failure of the own ones is noted by the entity |
| CachedSources.DependenciesAreRun | src/core/entity/entity.cpp:444-466 | An access to an entity that is due runs every entity that is due and that one of its providers, or it, depends on |
| CachedSources.PopulateRunsExactly | src/core/entity/entity.hpp:568-585 | The entities whose queries are run are exactly those reached through entities that are due, none twice unless it fails; those that do not fail end initialized |
| CachedSources.FirstPopulate | src/core/entity/entity_manager.cpp:38-50 | From the start and without failures every entity reached ends initialized, its queries run once, and another access runs nothing |
| CachedSources.DueAgainIff | src/core/entity/entity.hpp:594-618 | An entity that has been filled is due again exactly if its own queries failed |
| Parameters.RedfishContext.GetInstances | src/core/route/redfish/response.hpp:218-256 | The instances of an entity that meet conditions: among the related ones of the current instance, the current one alone, or all; an entity related to itself has its current instance in place of none. A missing source member of the relation is reported exactly where following it throws |
| Parameters.RedfishContext.VerifyParameter | src/core/route/redfish/response.hpp:187-210 | A parameter is accepted exactly if an instance is found, and the first one found is current then; otherwise the current one stays |
| Parameters.AcceptedIff | tools/redfish-gen/redfish_gen/templates/node.dynamic.entity.mako:22-37 | A segment is accepted for a searched instance that has its name; without one exactly if the entity is the current one and related to itself, and the parameter stays |
| Parameters.SameEntityIff | src/core/route/redfish/response.hpp:230-240 | Below an instance of the same entity, not related to itself, only that instance's name is accepted |
| Parameters.RelatedEntityIff | src/core/route/redfish/response.hpp:241-252 | Below an instance of a related entity, exactly the names of its related instances are |
| Parameters.UnrelatedExactly | src/core/route/redfish/response.hpp:254-255 | Without a related parameter a segment is accepted for the first instance whose field has the text of the segment, underscores read as spaces and null as N/A, and that meets the other conditions, and for none if there is none |
| Parameters.AnswersEverySegmentIff | src/core/route/redfish/response.hpp:246-251 | A parameterized node answers every segment exactly if its entity is the current one and related to itself |
| Parameters.SecondLook | src/core/route/redfish/node.hpp:187-238 | Asked again on the way to a child, a node keeps its parameter unless a related instance of the same entity has the name, which is current then |
| VlanExample.AnythingIsAVlan | src/core/route/redfish/response.hpp:246-251 | Every URI with one segment below the VLANs of an interface that has none resolves to the node for a VLAN, with the interface for a parameter |
| Routing.ResolvedIsSpelled | src/core/route/redfish/node.hpp:187-238 | Whatever node a URI resolves to, its segments spell the way to it, and the parameter it ends with is the one accepted on that way |
| Routing.ResolvesExactly | src/core/route/redfish/node.hpp:187-238 | With no segment answered by two siblings, whatever parameter can be at hand, a URI resolves to a node exactly when it spells it |
| Routing.FindsAllIff | src/core/route/redfish/node.hpp:187-220 | Every spelled place is found exactly when siblings are disjoint throughout, with each parameter that can be at hand: the first child that answers is never taken back |
| Routing.RootSegmentIsIgnored | src/core/route/redfish/node.hpp:222-238 | On the way to a child the segment of a root that takes no parameter is not looked at |
| Routing.GetUriPath | src/core/request.cpp:71-84 | The URI of a request has a slash before and after each segment |
| Routing.UriPathIsJoined | src/core/request.cpp:71-84 | It is the segments joined by slashes, between two more; a single slash without any |
| Routing.LinkResolvesIff | src/core/route/redfish/node.hpp:1186-1209 | The URI of a request with any text behind it resolves to a child of its node exactly when the text is one segment, slashes aside, that the child answers to with the parameter behind the node |
| RedfishTree.ResolveUri | src/core/route/redfish/node.hpp:222-238 | The resolver on one context, which each accepted parameter changes, finds what the tree resolves to and ends with that parameter; it throws only for a relation with a missing source member |
| RedfishTree.ResolveNextChild | src/core/route/redfish/node.hpp:187-220 | The same for the children of a node |
| RedfishTree.TreeFindsAllIff | src/core/route/redfish/node.hpp:272-294 | For trees of ordinary and parameterized nodes over any instances: every spelled place is found exactly when no two siblings share a segment, or a searched name without underscores, with any parameter that can be at hand |
| RedfishTree.LoneParametersFindAll | src/core/route/redfish/node.hpp:187-238 | In every snapshot so if parameterized nodes have no siblings and ordinary siblings differ, as in the tree under `tools/redfish-gen/redfish`, prefixes aside |
| RedfishTree.LeadsToChildIff | src/core/route/redfish/node.hpp:1186-1209 | For such trees: a text behind the URI of a request leads to a child exactly when it is one segment that the child answers to with the parameter on the way |
| RedfishTree.OrdinaryLinkLeads | src/core/route/redfish/node.hpp:1211-1247 | The link to an ordinary child leads to it |
| RedfishTree.LinksAreSpelled | src/core/route/redfish/node.hpp:298-319 | The links to a child, character by character: the request's segments, and behind them the child's segment, or for each instance found its name with underscores for spaces |
| RedfishTree.NameLinkLeadsIff | src/core/route/redfish/node.hpp:298-319 | The link made for an instance's name leads to its parameterized node exactly if an instance searched there has the name with spaces for underscores, or the entity is the current one and related to itself; the parameter then is the first such instance, or the one at hand |
| RedfishTree.AllNameLinksLeadIff | src/core/route/redfish/node.hpp:298-319 | All links to a parameterized node lead to it exactly if that holds of each name |
| RedfishTree.SettledIff | src/core/route/redfish/node.hpp:187-238 | The parameter with which links are made is the one with which they are followed, unless the instance found for the node itself is related to another one of its name |
| RedfishTree.NameLinkLeadsHome | src/core/route/redfish/node.hpp:298-319 | Where it is, the link for an instance whose name has no underscore and is no other's leads to the node with that instance for a parameter |

## Left out

- Numerals.DumpInteger: the smallest signed 64-bit integer is left out, because negating it overflows, which is undefined in the source.
- HtmlPrinter.Dump: the text of floating-point numbers is taken as given, any string of digits, lower-case letters, signs and points, because the number printer behind it is not part of this model.
- Escaper.DumpEscaped: the output after a write out of bounds is not described, because that is undefined in the source. The variable for the index at the last accepted byte is dropped, as it always equals the index.
- GraphqlHandler.Run: evaluates a fixed snapshot. That each read of the instances runs the providers again is proved harmless for the server in ServerBoot.EarlierReadIsForgotten, for the default values as for the fields that providers write. Instances disclosed from associations, fragments in queries, arguments, and the destructor's behaviour while an exception is under way are not modelled.
- GraphqlHandler.GqlObjectBuild.GetFragment: a look-up that finds no row fails with the internal failure that the handler means to report; which type of exception the JSON library throws for it is not part of this model. `GraphqlHandler.GqlObjectBuild.LookupsSucceed` shows that it never comes up.
- GraphqlHandler.GqlQueryVisitor.AcceptAll: the traversal of the syntax tree by the parser library is modelled as entering a field, visiting its own fields, and leaving it; the library is not part of this model.
- Entities.GetConditions: comparers are arbitrary functions of the destination field and the source value; which ones the entities use is not modelled.
- Guards.MutualExclusion: steps are sequentially consistent; the weaker memory orders that the code asks for are not modelled. The second guard, around the instance listeners, follows the same steps but has no destructor, so an exception between its lock and unlock is not covered.
- Sessions.IdleIsBounded: times are unbounded integers, so an overflow of the clock arithmetic for huge timeouts is not modelled.
- Sessions.SessionStore.GenerateUserSession: random tokens are inputs, and the commit that follows is ConfigFiles.ConfigFile.Commit.
- ConfigFiles.ConfigFile.WriteData: members of an object stand in the order they are put, while the library sorts them; nothing here depends on that order. File permissions, directories and failing writes are not modelled.
- ObjectCache.AlwaysExactIff: each change of the bus is signalled and handled before the next, and instance hashes are injective in service and path. The debounce queue, which the code never selects, is not modelled, nor is the resolution of a sender to a service name.
- Properties.IncrementalEqualsFresh: members that are derived from others, or that two properties write, are excluded by its premise; the one for the boot mode is covered by HostBoot.IncrementalIsFreshIff. Associations are not modelled.
- ServerBoot.RunProviders: the link functions for indicator and firmware are taken as copies of members that are none of the boot fields.
- CachedSources.PopulateRunsExactly: accesses are sequential; two threads that access entities at once are not modelled. A provider that is also accessed as a source of its own is another source in the model: its failure here does not make it due there. Entities with a lifetime and entities that are refilled on every access are left out, and so is the exception for an entity that is not registered.
- GraphqlAliases.AnsweredAsMeantIff: queries with scalars at their root fail whatever their aliases are, and where a selection asks for one response key twice, only the first field with it shows; both are left to GraphqlHandler.Run.
- HtmlInverse.HtmlIsInjective: floats that are not finite are left out, since they print like null; a finite one counts as the value that its text denotes.
- UriText.UrlEncode: letters and digits are those of ASCII, as in the default locale. For bytes from 0x80 on the source hands a negative value to `isalnum` where characters are signed (`src/core/helpers/utils.hpp:118`), which is undefined; the model takes those bytes as not alphanumeric.
- Routing.LinkResolvesIff: a request's segments are the non-empty pieces of its URI between slashes; the server interface that splits them is not part of this model. Nodes with static prefixes are left out.
- RedfishTree.ResolveUri: evaluates a fixed snapshot of the entities. The dictionary of parameters by name, which the handlers read later, is not modelled.
- FastCGI, the D-Bus transport, authentication, random numbers, the JSON parser and printer, and the GraphQL parser are inputs or absent.
- Sensor alarms, virtual media, enumeration formatters, the error message catalogue, HTTP headers and the schema generator are not modelled.
