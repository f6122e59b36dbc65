# A verified model of the chat system

The chat system has a server that keeps users, bans and messages in a MySQL database, a console client, and a graphical client with an
administration window. This project models the three parts that work together and proves what they are for:

- **SHA-1 and the texts on the wire.** `Sha1.dfy` holds the hash code as array loops and, beside it, the standard (FIPS 180-4).
  `Digest.dfy`, `Records.dfy` and `Recipients.dfy` hold the loops that cut texts into fields, with their round trips.
- **The server.** `Tables.dfy` is the database as relations; each call is one atomic step with a fault and a delay of its own for
  every SQL statement. `TableLaws.dfy`, `Readers.dfy` and `Delivery.dfy` prove what all runs of calls keep. `Session.dfy` says what a session does
  with each message, in at most two database calls, and `Server.dfy` runs any number of sessions with the calls of one message apart.
  `Listing.dfy` and `MessageStream.dfy` are about what a session streams to its client, row by row and message by message.
  `DbAccess.dfy` and `ClientConnection.dfy` are the two server classes, method by method, and `TcpServer.dfy` is the
  loop around them; their methods are proved against the functions the laws are about.
- **The clients.** `Console.dfy` is the console client's state machine as a class; `ConsoleLogin.dfy`, `ConsolePhases.dfy`,
  `ConsoleProgress.dfy`, `ConsoleRecipients.dfy` and `ConsoleMenu.dfy` prove the composition of client, session and database, with other sessions
  interfering at every exchange; `Display.dfy` is how it prints a message. `QtClient.dfy` and `QtRequests.dfy` hold the request
  loops of the graphical client, and `QtSession.dfy` what any run of the server leaves its sessions with. `TypedText.dfy` and
  `Password.dfy` follow a password from the keyboard to the hash column and back.

Interference by other sessions is a sequence of arbitrary writing calls (`DbOp`). `TcpServer.HandleIsSteps` and `TcpServer.OthersAreCalls`
show that this is what the steps of other sessions of `Server.dfy` amount to.

## Where the code does not do what it seems to

- The SHA-1 block loop returns in its first pass, so the result is one compression of the first padded block
  (`Sha1.Sha1`, `Sha1.LaterBlocksAreIgnored`), and passwords that agree in their first 64 bytes are accepted for each other
  (`Password.LongPasswordsAreAccepted`). It is the standard's digest for messages of at most 55 bytes (`Sha1.ShortMessagesGetTheDigest`).
  The padding differs from the standard's exactly for lengths of 56 modulo 64 and from 2 to the 29 bytes on (`Sha1.PaddingIsStandard`).
- `get_user` succeeds without a row. With an empty password this logs in as nobody: `ConsoleLogin.NobodyLogsIn` gives the
  conversation, and `ConsoleLogin.SafeExactly` says that nothing else breaks the login.
- One registration that fails at its second statement leaves a NULL hash behind, and every later listing reads it
  (`Listing.OneFailureIsEnough`; `Listing.ListingIsReadable` says that nothing else does but a registration that is pending).
- Logging out keeps the fetched messages: a client that then asks for the next message gets those of the user before
  (`MessageStream.LogOutKeepsMessages`). The console client never does (`ConsolePhases.StateIsOk`).
- A login with a number sign upsets the list of recipients. A user called `a#|` makes every console client that asks for the list die
  (`ConsoleRecipients.ThrowingList`); other such logins add keys that name no user (`ConsoleRecipients.OnlyOthersExactly`).
- The console client cuts a message at number signs, which is not the divider the server writes. Without one in the logins and the
  text, nothing of it is printed. With one to three, as in the text `see #3`, it reads past the end of a vector, which has no defined
  effect (`Display.ShownExactly`, `Display.UndefinedText`, `ConsoleProgress.OneMarkBreaks`). With more it prints four pieces, and
  what it prints as the date is never the time (`ConsoleProgress.WhatIsPrinted`).
- A login with a tilde is listed by the graphical client up to the tilde, so that its messages can go to another user: of `a` and
  `a~b` the second leads to the first (`QtClient.ClashingNames`, `QtRequests.PickedReceiver`).
- A batch login reports an id but leaves the session without a user, so that the graphical client gets every message of a user with
  an empty receiver (`QtSession.QtIsNobody`, `QtSession.QtUserBody`).
- A broadcast gives a second state row to an earlier message of the same sender in the same second
  (`Delivery.StateHistoryLaw`); after a failed delivery it can make that message visible (`Delivery.BroadcastDelivery`).
- The inbox is keyed by time, so of several messages in one second it shows one (`Readers.InboxPoolExact`).
- The console's write-to-all sends no sender id, so the server always refuses it, and the refusal goes back and forth for ever
  (`ConsoleProgress.ConversationsAreHandled`, `ConsoleProgress.StraysBounce`).
- A ban query that fails lets a banned user in (`QtRequests.BatchLogin`).
- The comment on the client's request for the next message says that the server marks the message as viewed
  (client+chat/Client/TCPClient.cpp:186); the server ignores that id (client+chat/server/ClientConnection.cpp:232-244), and so does the model.

## Model

| member | source | states |
|---|---|---|
| Sha1.ByteSwap | client+chat/Client/sha1.cpp:7-12 | the byte swap turns a word read on a little-endian machine into the standard's big-endian word |
| Sha1.Extend | client+chat/Client/sha1.cpp:21-43 | the copied buffer is message, marker, zeros and size, and is 64 times the block count long |
| Sha1.LoadBlock | client+chat/Client/sha1.cpp:48-52 | the first 16 words of the expansion array are the words of the block |
| Sha1.Expand | client+chat/Client/sha1.cpp:53-60 | the in-place expansion is the message schedule of section 6.1.2 of FIPS 180-4 |
| Sha1.SelectRound | client+chat/Client/sha1.cpp:69-86 | the OR forms select the standard's round function and constant in every round |
| Sha1.OneRound | client+chat/Client/sha1.cpp:88-93 | the five assignments are one round of the standard |
| Sha1.ProcessBlock | client+chat/Client/sha1.cpp:62-107 | 80 rounds and the additions are one compression from the initial value |
| Sha1.Sha1 | client+chat/Client/sha1.cpp:14-113 | the code returns the compression of the first padded block |
| Sha1.PaddingIsStandard | client+chat/Client/sha1.cpp:21-43 | the buffer is the padding of section 5.1.1 of FIPS 180-4 exactly for lengths below 2^29 that are not 56 modulo 64 |
| Sha1.PaddingIsInjective | client+chat/Client/sha1.cpp:21-43 | two messages never share a padded buffer |
| Sha1.FirstBlockIsStandard | client+chat/Client/sha1.cpp:46-111 | away from 56 bytes the result is the standard's hash value after one block |
| Sha1.ShortMessagesGetTheDigest | client+chat/Client/sha1.cpp:14-113 | for at most 55 bytes the result is the SHA-1 digest |
| Sha1.LaterBlocksAreIgnored | client+chat/Client/sha1.cpp:102-111 | from 64 bytes on the result depends on the first 64 bytes alone |
| Digest.HashToString | client+chat/Client/sha1.cpp:133-145 | the loop prints the words in hexadecimal with dashes between them |
| Digest.HashFromString | client+chat/Client/sha1.cpp:115-127 | the loop reads the dash-separated fields, and leaves zeros for missing ones |
| Digest.DigestRoundTrip | client+chat/Client/sha1.cpp:115-145 | reading a printed digest gives it back, although the numbers are not padded |
| Digest.HashTextInjective | client+chat/Client/sha1.cpp:133-145 | different digests have different texts |
| Digest.BuffersSuffice | client+chat/Client/sha1.cpp:134-142 | every printed word fits 10 characters and a printed digest fits 48 |
| Records.SerializeMsg | client+chat/server/Message.cpp:23-32 | the text of a message is four terminated fields, the id and a NUL |
| Records.SplitMsgData | client+chat/utils.cpp:20-37 | the cutting loop ends on every text and finds its fields |
| Records.RowRoundTrip | client+chat/utils.cpp:20-37 | a user row of any number of fields is split into its fields exactly when they are free of the divider and NUL |
| Records.MessageRoundTrip | client+chat/utils.cpp:20-37 | a serialized message is split into its five fields exactly when they are plain and the id is kept by the tail rule |
| Recipients.UnpackAvailableUsers | client+chat/Client/TCPClient.cpp:330-345 | the loop inserts one entry for every packed user, and says where it would not end or throw |
| Recipients.LoginPartExactly | client+chat/Client/TCPClient.cpp:333-341 | the login is what stands between the first bar and the first number sign, or all behind the bar where the number sign comes first |
| Recipients.UnpackEnds | client+chat/Client/TCPClient.cpp:330-345 | the loop fails to end exactly on texts with a bar behind the last number sign |
| Recipients.UnpackPieces | client+chat/Client/TCPClient.cpp:333-341 | unpacking throws exactly when some piece of the text is no number; otherwise the keys are the numbers of the pieces |
| Recipients.PackedPieces | client+chat/server/DBAccess.cpp:455-458 | the numbers read from a packed list are the ids, and those taken from the middle of logins with a number sign |
| Recipients.PackedListsEnd | client+chat/Client/TCPClient.cpp:333-341 | unpacking a packed list always ends, whatever the logins |
| Recipients.PackedListsExactly | client+chat/Client/TCPClient.cpp:333-341 | unpacking a packed list throws exactly when some login is bad; otherwise its keys are the ids and the stray keys of the logins |
| Recipients.ThrowingLogin | client+chat/Client/TCPClient.cpp:336 | every packed list that holds the login `a#&#124;` makes the client throw |
| Recipients.RecipientRoundTrip | client+chat/Client/TCPClient.cpp:330-345 | unpacking gives the map from ids to logins exactly when no login holds a number sign |
| Text.StolReads | client+chat/Client/TCPClient.cpp:336 | blanks, a sign or none, and digits are read as the number they spell if it fits a long, whatever follows |
| Text.StolNeeds | client+chat/Client/TCPClient.cpp:336 | every other text is no number |
| Text.Strtoul16Reads | client+chat/Client/sha1.cpp:115-127 | the same for hexadecimal words with an optional 0x, saturating, and negated modulo its range behind a minus |
| Text.HexLetters | client+chat/Client/sha1.cpp:120 | hexadecimal letters are digits in either case |
| Timestamps.StampOrder | client+chat/server/DBAccess.cpp:117-126 | the text order of timestamps is the order in time |
| Timestamps.StampReadsBack | client+chat/server/DBAccess.cpp:117-126 | before the year 10000 the text has the form year-month-day hours:minutes:seconds, and the numbers it shows are those of the instant |
| Pool.PutAllMembers | client+chat/server/DBAccess.cpp:521-528 | a map filled in row order holds exactly the first row of every key |
| Pool.OneForEveryKey | client+chat/server/DBAccess.cpp:588-595 | in whatever order rows come, the map holds one of them for every key, and nothing else |
| Pool.PoolIgnoresRowOrder | client+chat/server/DBAccess.cpp:521-528 | when rows with one key are equal, the order of the rows does not matter |
| TableLaws.ApplyOk | client+chat/server/DBAccess.cpp:67-130 | every writing call keeps logins and ids unique, users and user_data in bijection, one ban per user, and message ids increasing |
| TableLaws.RunOpsOk | client+chat/server/DBAccess.cpp:67-130 | the same over every run of calls |
| TableLaws.RunOpsAppends | client+chat/server/DBAccess.cpp:102-126 | in every run rows of users, messages and states stay; new ones go behind them |
| TableLaws.OneRowPerUser | client+chat/server/DBAccess.cpp:335-373 | the three-table join lists every user exactly once, with its hash and deadline |
| Accounts.SameLoginExactly | client+chat/server/DBAccess.cpp:191-214 | logins are the same exactly when they agree letter by letter but for the case, blanks at the end aside |
| Readers.AdminPoolExact | client+chat/server/DBAccess.cpp:504-535 | in whatever order the query returns its rows, the admin reader shows exactly the visible messages, each once, whatever their number of state rows |
| Readers.UserPoolExact | client+chat/server/DBAccess.cpp:537-568 | in whatever order the query returns its rows, the text-id reader shows every visible message once, stamped with one of its state rows, and nothing else |
| Readers.UserPoolInKeyOrder | client+chat/server/DBAccess.cpp:537-568 | with rows in primary key order the stamp is that of the first state row |
| Readers.InboxRowsMembers | client+chat/server/DBAccess.cpp:571-594 | a row is in the inbox query exactly when it is of a message to the user from a registered sender and of a state of that message with status 1, and holds their time, id, sender and text |
| Readers.InboxPoolExact | client+chat/server/DBAccess.cpp:570-603 | in whatever order the query returns these rows, the inbox holds one of them for every second of change and nothing else; all of them exactly when the seconds differ |
| Readers.InboxOfEarliest | client+chat/server/DBAccess.cpp:570-603 | with rows in primary key order the inbox holds exactly, for every second in which something was delivered to the user, the row of the earliest such message |
| Readers.InboxInKeyOrder | client+chat/server/DBAccess.cpp:570-603 | with clocks before the year 10000 these are the rows that are the first of their second |
| Readers.InboxIsChronological | client+chat/server/DBAccess.cpp:570-603 | the inbox comes out in the order of time, in whatever order the query returns its rows |
| Delivery.StateHistoryLaw | client+chat/server/DBAccess.cpp:664-722 | without SQL failures a message has one state row and one more per later broadcast of its sender that started no later than its creation |
| Delivery.DeliveredKeepsState | client+chat/server/DBAccess.cpp:684-711 | a message of a successful delivery has a state row for ever |
| Delivery.ShownStays | client+chat/server/DBAccess.cpp:537-568 | sender, receiver, text and visibility of a visible message survive every run, and so does every stamp it can be shown with |
| Delivery.ShownStampStays | client+chat/server/DBAccess.cpp:537-568 | with rows in primary key order the stamp it is shown with stays as well |
| Delivery.PrivateExactly | client+chat/server/DBAccess.cpp:664-689 | a private delivery succeeds exactly if both inserts do; the message is there unless the first fails, and one state row, with status 1 and the second of its own insert, if neither does |
| Delivery.BroadcastExactly | client+chat/server/DBAccess.cpp:690-711 | a broadcast inserts its messages unless the first statement fails or finds nobody, then one state row for each message of the sender from its start second on, each with the second of its own insert, up to the insert that fails; it succeeds exactly if none does |
| Delivery.DeliveredFrom | client+chat/server/DBAccess.cpp:674-682 | a successful delivery is from the sender named first to the recipient named second, or to each other user once, with the given text |
| Delivery.PrivateDelivery | client+chat/server/DBAccess.cpp:664-689 | a private delivery adds one message with one state row of the second it was inserted in, shown to exactly sender and recipient, and changes no other's visibility |
| Delivery.BroadcastDelivery | client+chat/server/DBAccess.cpp:690-711 | a broadcast adds exactly one message for every user but the sender, shown to exactly the two and to the admin, and one state row for each chosen message; earlier ones become visible to the two, or to the admin, exactly if picked up |
| Delivery.DeliveredToInbox | client+chat/server/DBAccess.cpp:570-603 | after a private delivery, whatever runs later, the recipient's inbox has an entry for its second, which is this message unless another was delivered in that second |
| Delivery.BothAreInInbox | client+chat/server/DBAccess.cpp:570-603 | two deliveries to one user in different seconds both have their entry in the inbox |
| Delivery.NothingPickedUp | client+chat/server/DBAccess.cpp:690-711 | after a run without SQL failures no earlier message is picked up |
| Delivery.BanHistory | client+chat/server/DBAccess.cpp:311-333 | in every run a user has a ban row exactly if the last effective call on that user was a full ban, with its deadline |
| Server.RunIsCalls | client+chat/server/ClientConnection.cpp:22-312 | the database of every run of all sessions is the one its writing calls produce in their order |
| Server.StepOk | client+chat/server/ClientConnection.cpp:55-73 | every step of every session keeps the registration invariant |
| Server.FailedStays | client+chat/server/ClientConnection.cpp:55-73 | a registration that has failed is failed after every further run |
| Server.RegistrationsAreUnique | client+chat/server/ClientConnection.cpp:169-194 | however sessions interleave, logins and ids are unique and at most one registration per login is answered with eAuthOK |
| Server.MissingHashes | client+chat/server/ClientConnection.cpp:169-194 | a missing hash belongs to a registration that is pending or has failed |
| TypedText.BytesSpellTheText | client+chat/Client/TCPClient.cpp:319-322 | the bytes that are hashed spell the typed characters, so that different passwords have different bytes |
| Password.CreatePwdHash | client+chat/Client/TCPClient.cpp:319-328 | the empty text for the empty password; for up to 55 bytes, a text that reads back as the SHA-1 digest of the bytes that spell the typed characters |
| Password.SameText | client+chat/Client/TCPClient.cpp:319-328 | passwords of any length have the same text exactly when the hashes of their first blocks are equal |
| Password.SameDigest | client+chat/Client/TCPClient.cpp:319-328 | passwords of at most 55 bytes have the same text exactly when their SHA-1 digests are equal |
| Password.PasswordTextIsDigest | client+chat/Client/TCPClient.cpp:319-328 | reading the text of a password of at most 55 bytes gives the five words of its SHA-1 digest in order |
| Password.LongPasswordsAreCut | client+chat/Client/TCPClient.cpp:319-328 | passwords of at least 64 bytes that agree in the first 64 have the same text |
| Password.StoredHashStays | client+chat/server/DBAccess.cpp:404-417 | no run of any sessions changes a stored hash |
| Password.RegistrationStays | client+chat/server/ClientConnection.cpp:169-178 | an accepted registration keeps its id and hash in every further run |
| Password.LoginMatchesHash | client+chat/server/ClientConnection.cpp:135-155 | after any run a login with a password of any length is accepted exactly when it is not empty and the first block of the bytes that spell it has the hash of the registered one; the session takes the registered id |
| Password.LoginMatchesDigest | client+chat/server/ClientConnection.cpp:135-155 | for passwords of at most 55 bytes, that is exactly when the bytes that spell the two have the same SHA-1 digest |
| Password.LongPasswordsAreAccepted | client+chat/server/ClientConnection.cpp:135-155 | of two passwords of at least 64 bytes that agree in the first 64, one is accepted for the other after any run |
| Password.BatchLoginFollowsBans | client+chat/server/ClientConnection.cpp:38-54 | after any run the second half of a batch login is eAuthOK exactly when the last effective ban call was no full ban, else eError with its deadline |
| Listing.ListingIsConserved | client+chat/server/ClientConnection.cpp:26-37 | in every run and session, rows sent and rows left in the buffer are the concatenation of all fetched listings |
| Listing.DrainedListing | client+chat/server/ClientConnection.cpp:76-87 | the next row is refused exactly when the buffer is empty, and then every listing has been sent exactly once |
| Listing.ListingFields | client+chat/server/DBAccess.cpp:352-364 | a listing row splits into the user's six fields exactly when they are plain; the last is empty exactly without a ban row |
| Listing.ListingIsReadable | client+chat/server/DBAccess.cpp:352-360 | in every run the listing reads no NULL hash exactly as long as no registration is pending and none has failed |
| Listing.OneFailureIsEnough | client+chat/server/ClientConnection.cpp:55-73 | in any run and for any free login, a batch registration whose second statement fails makes the listing read a NULL hash after every further run |
| MessageStream.MessagesAreConserved | client+chat/server/ClientConnection.cpp:197-244 | in every run and session, the messages sent since the last successful fetch and those left in the pool are what that fetch found |
| MessageStream.LogOutKeepsMessages | client+chat/server/ClientConnection.cpp:251-257 | logging out keeps the pool: the next eGetNextMsg hands out its first message, fetched for the user who has left, exactly if the pool is not empty, and is refused otherwise |
| DbAccess.DBAccess.AddUser | client+chat/server/DBAccess.cpp:147-189 | inserts a user exactly when it reports an id: the login was free, the id is fresh, the row has this login and no hash, and every other row stays |
| DbAccess.DBAccess.LoginUsed | client+chat/server/DBAccess.cpp:191-214 | true exactly when the query succeeds and some row has this login |
| DbAccess.DBAccess.UserAuthOk | client+chat/server/DBAccess.cpp:216-249 | the id of the row with this login, exactly when its stored hash matches |
| DbAccess.DBAccess.GetUser | client+chat/server/DBAccess.cpp:280-309 | reads id and hash; leaves the variables alone, and still succeeds, without a row |
| DbAccess.DBAccess.SetUserPwdhash | client+chat/server/DBAccess.cpp:404-417 | the hash of one user becomes the given one; all other hashes stay |
| DbAccess.DBAccess.BanUser | client+chat/server/DBAccess.cpp:311-333 | the ban of one user is replaced or lifted, also where the insert fails; all other bans stay; it reports success exactly if no statement fails |
| DbAccess.DBAccess.UserIsBanned | client+chat/server/DBAccess.cpp:419-443 | a deadline exactly when the query succeeds and a ban row of the user exists, and then of such a row |
| DbAccess.DBAccess.GetUsers | client+chat/server/DBAccess.cpp:335-373 | appends the listing to the vector without clearing it |
| DbAccess.DBAccess.PackUsers | client+chat/server/DBAccess.cpp:445-469 | packs ids and logins of the other users |
| DbAccess.DBAccess.GetAllMsgs | client+chat/server/DBAccess.cpp:504-535 | refills the pool with every visible message, keyed by id; a failed query leaves it |
| DbAccess.DBAccess.GetUserMsgsText | client+chat/server/DBAccess.cpp:537-568 | refills the pool with every message to or from a user that can be seen, keyed by id; a failed query leaves it |
| DbAccess.DBAccess.GetUserMsgsNumber | client+chat/server/DBAccess.cpp:570-603 | refills the pool with a user's inbox: for every second, the earliest message delivered to the user in it; a failed query leaves it |
| DbAccess.DBAccess.DeliverToAll | client+chat/server/DBAccess.cpp:679-717 | inserts one message from the sender to each other user, then one state row per message selected by time, as far as no insert fails |
| DbAccess.DBAccess.DeliverMsg | client+chat/server/DBAccess.cpp:664-722 | delivers from the first id to the second, or to all others |
| ClientConnection.ClientConnection.NextPooled | client+chat/server/ClientConnection.cpp:232-244 | the head of the pool is serialized into the reply and erased |
| ClientConnection.ClientConnection.AuthAdmin | client+chat/server/ClientConnection.cpp:26-37 | fetches the listing and sends its first row |
| ClientConnection.ClientConnection.Login | client+chat/server/ClientConnection.cpp:110-134 | remembers the login of a user who exists, or of one who does not yet |
| ClientConnection.ClientConnection.CheckPassword | client+chat/server/ClientConnection.cpp:135-162 | compares the stored hash and takes the user's id |
| ClientConnection.ClientConnection.Register | client+chat/server/ClientConnection.cpp:168-195 | adds the user and, after whatever others do meanwhile, saves the hash |
| ClientConnection.ClientConnection.BatchRegister | client+chat/server/ClientConnection.cpp:55-73 | the same for a batch registration |
| ClientConnection.ClientConnection.BatchAuth | client+chat/server/ClientConnection.cpp:38-54 | checks login and hash, then the ban |
| ClientConnection.ClientConnection.UserMessages | client+chat/server/ClientConnection.cpp:212-231 | refills the pool by one of two readers and sends its first message |
| ClientConnection.ClientConnection.SendPrivately | client+chat/server/ClientConnection.cpp:286-304 | delivers for the session's user, or for the one named in the message |
| ClientConnection.ClientConnection.ProcessClientMsg | client+chat/server/ClientConnection.cpp:22-312 | one message: new database, new session fields, reply and exit flag are those of its two steps |
| TcpServer.ThProcessClient | client+chat/server/TCPServer.cpp:94-116 | serves messages in order until the one that ends the session |
| TcpServer.EveryMessageIsAnswered | client+chat/server/TCPServer.cpp:103-114 | every message up to the first eQuit gets one reply, nothing after it does |
| TcpServer.OthersAreCalls | client+chat/server/TCPServer.cpp:152-155 | the steps of other sessions reach a session only as a run of database calls |
| TcpServer.HandleIsSteps | client+chat/server/ClientConnection.cpp:22-312 | a whole message equals its two steps with any steps of other sessions between them |
| TcpServer.ServeIsRun | client+chat/server/TCPServer.cpp:94-116 | what the loop sends to a client are the replies of the session's steps in a run of all sessions, and it leaves database and session as that run does |
| QtClient.GetMessages | UI_ADM_CONSOLE/clientmainwindow.cpp:211-259 | the drain ends, with the bodies of the pool fetched by the first request, and leaves the pool empty |
| QtClient.AdminDrain | UI_ADM_CONSOLE/clientmainwindow.cpp:211-259 | the drained bodies are the messages visible at the first request, each once, in text order of ids; they split into their fields exactly when plain |
| QtClient.SplitUserEntry | client+chat/server/DBAccess.cpp:556-561 | a drained message of the text-id reader splits into time of its state row, sender, the session's user name, text and id exactly when names and text are plain |
| QtClient.SplitInboxEntry | client+chat/server/DBAccess.cpp:590-595 | the same for a message of the inbox, whose key is the time |
| QtClient.GetUserList | UI_ADM_CONSOLE/clientmainwindow.cpp:261-308 | the listing drain ends with the logins and the map of the rows left and fetched, and an empty buffer |
| QtClient.ListedUsers | UI_ADM_CONSOLE/clientmainwindow.cpp:285-296 | a drained listing names every user once, by the login up to its first divider; a name is mapped to its user exactly when no earlier user has the same |
| QtClient.PlainLoginsAreNames | UI_ADM_CONSOLE/clientmainwindow.cpp:285-296 | logins without a divider are their own names, and every one is mapped to its user |
| QtClient.ClashingNames | UI_ADM_CONSOLE/clientmainwindow.cpp:285-296 | an input at which the map is wrong: behind a first user `a`, a user `a~b` is listed as `a` and mapped to the id of the first |
| QtSession.QtIsNobody | client+chat/server/ClientConnection.cpp:38-54 | in every run, a session that gets the requests of a graphical client only has neither a user nor an id, batch logins included |
| QtSession.QtUserBody | client+chat/server/ClientConnection.cpp:212-216 | in every run, what such a session sends of a user's messages are messages the user sent or was sent, with the time of the first state row and an empty receiver; a body splits into its fields exactly when sender and text are plain |
| QtSession.BuffersNameUsers | client+chat/server/ClientConnection.cpp:26-37 | in every run, the rows in any buffer, of whatever listing they are left, name users of the database by id and name |
| QtSession.StaleListing | UI_ADM_CONSOLE/clientmainwindow.cpp:261-308 | in every run, a drain that starts with rows left in the buffer lists their users in front of all users; a name is mapped to its user exactly when the first row with that name is the user's, and always where names differ |
| QtRequests.SetBan | UI_ADM_CONSOLE/mainwindow.cpp:220-244 | bans or unbans a user; it reports success exactly if no statement fails, and then the user has the one ban row with the deadline, or none |
| QtRequests.SendCallDelivers | UI_ADM_CONSOLE/clientmainwindow.cpp:164-209 | what is delivered is from the named sender, to the user the map gives or to each other user, with the typed text; a session with an id is the sender itself |
| QtRequests.SendMessage | UI_ADM_CONSOLE/clientmainwindow.cpp:164-209 | sends to all or to a user of the map and reports the delivery; then the new messages are from the client's id to the id the map gives, or to each other user; an unknown name leaves the sender's own id |
| QtRequests.PickedReceiver | UI_ADM_CONSOLE/clientmainwindow.cpp:72-98 | in a session without an id, picking a name of a drained listing sends from the client's id to the first user with that name, and only sender and receiver see the message |
| QtRequests.CheckAuth | UI_ADM_CONSOLE/TCPClient.cpp:80-104 | the batch login exchange: it is checked against the hash and the ban rows of the one user with this login, and refused without one |
| QtRequests.AuthMatchesDigest | UI_ADM_CONSOLE/TCPClient.cpp:80-104 | a batch login is let in exactly when the SHA-1 digests are equal and no ban row is found |
| QtRequests.BatchLogin | client+chat/server/ClientConnection.cpp:38-54 | in every run a whole batch login is answered by the digests and the last effective ban call on that user, calls between its halves included |
| QtRequests.RegUser | UI_ADM_CONSOLE/TCPClient.cpp:106-133 | the batch registration exchange: it succeeds exactly when both calls do, and then the login has the reported id and the hash of the password |
| QtRequests.RegistrationRegisters | UI_ADM_CONSOLE/TCPClient.cpp:106-133 | registration succeeds exactly when both calls do; then the login has the reported id and the password's hash |
| Console.TCPClient.ChooseRecipient | client+chat/Client/TCPClient.cpp:239-269 | the input loop for a user id |
| Console.TCPClient.ReadText | client+chat/Client/TCPClient.cpp:269-284 | the input loop for the text of a message |
| Console.TCPClient.Answer | client+chat/Client/TCPClient.cpp:58-297 | the client's answer to every message, reads past the end of a vector and exceptions included, and its id field |
| Display.ShowUnpacked | client+chat/Client/Message.cpp:25-42 | the cutting loop ends, and finds the pieces that end in a number sign |
| Display.ShownExactly | client+chat/Client/Message.cpp:25-42 | nothing of a message is printed exactly without a number sign, and a vector is read past its end exactly with one to three |
| Display.PrintedPieces | client+chat/Client/Message.cpp:36-41 | of a body with four marks or more, the first piece is printed as the date, the second as the text, the third as the sender, and the fourth taken for the id |
| Display.DateIsWrong | client+chat/Client/Message.cpp:36-40 | what is printed as the date of a message is never its time |
| Display.UndefinedText | client+chat/Client/Message.cpp:25-42 | a message whose text holds one number sign, as `see #3`, is one whose showing has no defined effect |
| Console.TCPClient.Turn | client+chat/Client/TCPClient.cpp:53-300 | one turn of the loop is one exchange of the conversation |
| Console.TCPClient.Start | client+chat/Client/TCPClient.cpp:38-317 | the conversation of client and session, exchange by exchange, until it is over |
| ConsoleLogin.LoginStep | client+chat/Client/TCPClient.cpp:58-173 | an exchange keeps the login safe exactly unless the empty password is sent for a login without a row |
| ConsoleLogin.SafeExactly | client+chat/Client/TCPClient.cpp:58-173 | a conversation is safe throughout exactly if it never sends the empty password for a login without a row |
| ConsoleLogin.LoginIsSafe | client+chat/server/ClientConnection.cpp:110-196 | unless an empty password is typed after a refused one, a non-zero session id is always that of the session's login, equals the client's after eAuthOK, and is zero outside |
| ConsoleLogin.IdChanges | client+chat/server/ClientConnection.cpp:251-257 | the id changes only from zero by an accepted password, and to zero exactly when a line that starts with l is typed at the main menu |
| ConsoleLogin.EmptyPasswordTwice | client+chat/server/ClientConnection.cpp:138-150 | typing the empty password twice at a registration logs in with an id that belongs to nobody |
| ConsoleLogin.NobodyLogsIn | client+chat/Client/TCPClient.cpp:58-161 | the whole conversation, from the greeting, in which a free login and two empty passwords log in as nobody |
| ConsoleMenu.UserLogsIn | client+chat/Client/TCPClient.cpp:58-161 | the whole conversation of an existing user ends in eAuthOK with that user's id exactly if the typed password has the stored hash, whatever others do meanwhile; otherwise nobody is logged in |
| ConsoleMenu.UserRegisters | client+chat/Client/TCPClient.cpp:58-161 | the whole conversation of a new user with a free login ends in eAuthOK with a new row for the login and the hash of the password |
| ConsoleMenu.LoginTyped | client+chat/server/ClientConnection.cpp:110-134 | a login is accepted exactly if it is not empty and the database has it |
| ConsoleMenu.NewLoginTyped | client+chat/server/ClientConnection.cpp:110-134 | a new login is refused exactly if the database has it and the query succeeds |
| ConsoleMenu.PasswordTyped | client+chat/server/ClientConnection.cpp:135-162 | a typed password is accepted exactly if its hash is the stored one, and the session takes the user's id |
| ConsoleMenu.NewPasswordTyped | client+chat/server/ClientConnection.cpp:168-195 | a new password that is not empty registers the user with its hash, if the calls succeed |
| ConsoleMenu.LogOutChosen | client+chat/Client/TCPClient.cpp:197-198 | a line that starts with l at the main menu logs the user out, and a login is asked for |
| ConsoleMenu.ListChosen | client+chat/Client/TCPClient.cpp:199-202 | a line that starts with u keeps the session and puts the list of the other users in hand; a text can then go to these, and to the stray keys, and to nobody else |
| ConsoleMenu.BroadcastChosen | client+chat/Client/TCPClient.cpp:203-214 | a line that starts with a, and a text, is refused and writes nothing |
| ConsoleMenu.QuitChosen | client+chat/Client/TCPClient.cpp:58-161 | x at a prompt for one line ends the conversation within two exchanges and writes nothing |
| ConsolePhases.StateIsOk | client+chat/Client/TCPClient.cpp:51-313 | in every conversation, whatever is typed, messages are left in the pool only while one is being shown, and a list in hand is one the server packed for this client |
| ConsoleProgress.RepliesAreHandled | client+chat/Client/TCPClient.cpp:58-297 | a reply has a case in the client exactly unless the menu choice was a broadcast or undefined |
| ConsoleProgress.ConversationsAreHandled | client+chat/Client/TCPClient.cpp:51-313 | in every conversation all replies have a case exactly as long as no broadcast or undefined choice is made at the menu |
| ConsoleProgress.StraysBounce | client+chat/Client/TCPClient.cpp:203-218 | a reply without a case goes back and forth for ever |
| ConsoleProgress.RequestsAreServed | client+chat/server/ClientConnection.cpp:25-309 | every other request has a case in the session, but for eChooseLogin after a refused new login |
| ConsoleProgress.ChooseLoginBounces | client+chat/Client/TCPClient.cpp:130-146 | that request comes back once and is then answered |
| ConsoleProgress.MenuIsNear | client+chat/Client/TCPClient.cpp:174-191 | without input, within the pool's size and two exchanges, the menu is back exactly if every message to come can be shown; otherwise the client gets to one whose showing has no defined effect |
| ConsoleProgress.MenuAfterLogin | client+chat/Client/TCPClient.cpp:162-191 | after a login the same holds within the size of the fetched inbox and three exchanges |
| ConsoleProgress.NextPrompt | client+chat/Client/TCPClient.cpp:51-313 | after an answered prompt the next prompt or the end follows within four exchanges more than there are messages to show; it ends without a defined effect exactly if one of them cannot be shown |
| ConsoleProgress.InboxIsShown | client+chat/server/ClientConnection.cpp:212-244 | after a login the client gets into its hand, in order, for every second in which something was delivered to its user the earliest such message, as of the first exchange, then the end of messages, exactly if those before can be shown; none where the query fails |
| ConsoleProgress.WhatIsPrinted | client+chat/Client/TCPClient.cpp:182-189 | of a message of the inbox nothing is printed exactly without a number sign in logins and text; there is no defined effect exactly with one to three; else the date is wrong |
| ConsoleProgress.OneMarkBreaks | client+chat/Client/TCPClient.cpp:182-189 | a conversation in which a message with one number sign in its text is in hand has no defined effect from then on |
| ConsoleRecipients.ListsAreRead | client+chat/Client/TCPClient.cpp:234-238 | a list in hand never makes the client loop for ever; it throws exactly when a listed login is bad; otherwise the other users and the stray keys can be picked |
| ConsoleRecipients.ThrowingList | client+chat/Client/TCPClient.cpp:336 | one user with the login `a#&#124;` makes every client that gets a list with it die |
| ConsoleRecipients.PickingExactly | client+chat/Client/TCPClient.cpp:239-268 | with a list in hand a line that starts with x ends the session, a number out of range kills the client, and whatever is no key is passed over |
| ConsoleRecipients.TypingExactly | client+chat/Client/TCPClient.cpp:269-284 | behind a picked key a line that starts with x ends the session, an empty one is passed over, and any other is the text |
| ConsoleRecipients.KeysArePicked | client+chat/Client/TCPClient.cpp:252-284 | typing any number whose conversion is a key, negative ones included, picks that key, and the text goes to it |
| ConsoleRecipients.PicksAreKeys | client+chat/Client/TCPClient.cpp:252-284 | the ids that some typed lines send a text to are exactly the keys of the map |
| ConsoleRecipients.OnlyOthersExactly | client+chat/Client/TCPClient.cpp:262-268 | the ids that can be picked are the other users and the stray keys; they are existing other users only exactly when every stray key happens to be one |
| ConsoleRecipients.RecipientsExist | client+chat/Client/TCPClient.cpp:252-284 | a text goes to a listed user other than the sender, still there when it arrives, or to a stray key, which no list has whose logins are free of number signs |
| ConsoleRecipients.PickedIsDelivered | client+chat/Client/TCPClient.cpp:279-284 | without SQL failures, in a safe login, one of the typed lines is delivered from the session's user to the picked id, and shown to exactly these two |

## Left out

- Readers.InboxPoolExact: assumes a clock before the year 10000, since the text order of timestamps is the order in time only up to then.
- Readers.InboxIsChronological: assumes the same.
- Sha1.Sha1: lengths within 72 bytes of 2^32 are excluded, where the size arithmetic wraps.
- QtClient.ListedUsers: assumes logins without NUL, which texts of the program cannot hold.
- QtRequests.PickedReceiver: assumes the same.
- ConsoleRecipients.ListsAreRead: assumes the same, as do the other results about recipients.
- ConsoleRecipients.PickedIsDelivered: a negative number in a login becomes a key beyond the range of ids; the insert then fails, so that
  the assumption of no SQL failure is not met.
- TypedText.BytesSpellTheText: texts of bytes, as every text the program reads is one.
- Password.LoginMatchesDigest: passwords of at most 55 bytes, since longer ones are not hashed with SHA-1 proper;
  `Password.LoginMatchesHash` is for all lengths.
- Sockets, partial reads, threads and their error paths: one whole message per exchange over a lossless ordered channel. Sessions that
  have ended are not removed.
- SQL as text, quoting and escaping: a query is its relational effect; an id that is no decimal number makes its statement fail.
- Races inside one DBAccess call on the shared handle: a call is atomic. Column sizes other than the range of user ids: a value that does
  not fit is a failing statement.
- Reading a NULL hash: it has no defined effect, so messages that would do so are not enabled in a server run and end a console conversation.
- Capacities of the message buffers: texts are copied whole, up to their first NUL; typed lines are shorter than the body buffer, and the
  graphical client's passwords shorter than its buffer.
- Row order of query results: the tables' functions return rows in primary key order. `Readers.AdminPoolExact`, `Readers.UserPoolExact` and
  `Readers.InboxPoolExact` say what holds in every order; what needs that order is in members of its own.
- Collations: the comparison folds ASCII case and drops trailing blanks.
- Gaps in automatic ids, time zones, and a server clock other than the database's; the blank-padded day in the broadcast's start text is
  compared as an instant. Months have 31 days, so that every date has its own number; as delays are arbitrary, every sequence of
  real instants is among the modelled ones.
- The deadline of a ban, the text of the last database error and the value of an uninitialised id are given by the surroundings.
- Reading past the end of a vector: it has no defined effect, and ends a console conversation in the model.
- The fields `_user_ptr` and `_pwd_hash`, which nothing reads.
- Members without a caller: `read_users`, `write_users`, `set_user_attr`, `set_msg_state`, `user_pwdh_ok`, `cHasher` and the parsing
  `Message` constructor; `User`, `Logger`, `getPassword`.
- Dividers of `split_msg_data` other than the default.
- `_update_msg` and `_update_users`, which run the loops of `_get_messages` and `_get_user_list` with a table for a list, `_update_chats`, and all
  widgets, dialogs and timers: user interface. The second copies of sha1.cpp and utils.cpp are the same code.
- The graphical client's own console loop (UI_ADM_CONSOLE/TCPClient.cpp:135-420).
