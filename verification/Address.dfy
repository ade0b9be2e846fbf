/** Indexed transactions of an address, page by page. */
module Address {
  import opened Types
  import opened Models
  import opened Mapper
  import opened Ordering
  import opened Store
  import opened Sync
  import opened Consistency
  import opened CatchUp
  import opened Interleaving
  import opened ChainRuns

  function Offset(page: int, pageSize: int): int {
    WrapInt64((page - 1) * pageSize)
  }

  predicate IsHexChar(c: char) {
    '0' <= c <= '9' || 'a' <= c <= 'f' || 'A' <= c <= 'F'
  }

  /** 0x and forty hexadecimal digits. */
  predicate ValidAddress(address: string) {
    |address| == 42 && address[0] == '0' && address[1] == 'x' && forall i | 2 <= i < 42 :: IsHexChar(address[i])
  }

  /** The rows of one page, described from the side of a lower-case address. */
  function IndexedPage(db: Db, address: string, page: int, pageSize: int): Result<seq<AddressTransaction>> {
    if page <= 0 || pageSize <= 0 || pageSize > 100 then Err(InvalidPagination)
    else Ok(Described(TransactionsByAddress(db, address, pageSize, Offset(page, pageSize)), address))
  }

  // ---- Blanks around an address ----

  /** The characters with Unicode's White_Space property. */
  predicate IsSpace(c: char) {
    || '\t' <= c <= '\r' || c == ' ' || c == '\U{0085}' || c == '\U{00A0}' || c == '\U{1680}'
    || '\U{2000}' <= c <= '\U{200A}' || c == '\U{2028}' || c == '\U{2029}' || c == '\U{202F}' || c == '\U{205F}' || c == '\U{3000}'
  }

  function TrimLeft(s: string): string {
    if s != "" && IsSpace(s[0]) then TrimLeft(s[1..]) else s
  }

  function TrimRight(s: string): string {
    if s != "" && IsSpace(s[|s| - 1]) then TrimRight(s[..|s| - 1]) else s
  }

  function TrimSpace(s: string): string {
    TrimRight(TrimLeft(s))
  }

  /** The same characters, one by one: U+0009 to U+000D, blank, U+0085, U+00A0, U+1680, U+2000 to U+200A, and five more. */
  const BLANKS: string :=
    "\U{0009}\U{000A}\U{000B}\U{000C}\U{000D} \U{0085}\U{00A0}\U{1680}" +
    "\U{2000}\U{2001}\U{2002}\U{2003}\U{2004}\U{2005}\U{2006}\U{2007}\U{2008}\U{2009}\U{200A}" +
    "\U{2028}\U{2029}\U{202F}\U{205F}\U{3000}"

  lemma IsSpaceIff(c: char)
    ensures IsSpace(c) <==> c in BLANKS
  {
  }

  predicate AllSpace(s: string) {
    forall i | 0 <= i < |s| :: s[i] in BLANKS
  }

  lemma {:induction false} TrimLeftSplits(s: string) returns (pre: string)
    ensures AllSpace(pre) && s == pre + TrimLeft(s)
  {
    hide IsSpace, BLANKS;
    if s != "" && IsSpace(s[0]) {
      IsSpaceIff(s[0]);
      var rest := TrimLeftSplits(s[1..]);
      pre := [s[0]] + rest;
      assert s == [s[0]] + s[1..];
    } else {
      pre := "";
    }
  }

  lemma {:induction false} TrimRightSplits(s: string) returns (post: string)
    ensures AllSpace(post) && s == TrimRight(s) + post
  {
    hide IsSpace, BLANKS;
    if s != "" && IsSpace(s[|s| - 1]) {
      IsSpaceIff(s[|s| - 1]);
      var rest := TrimRightSplits(s[..|s| - 1]);
      post := rest + [s[|s| - 1]];
      assert s == s[..|s| - 1] + [s[|s| - 1]];
    } else {
      post := "";
    }
  }

  lemma {:induction false} TrimLeftDrops(pre: string, rest: string)
    requires AllSpace(pre) && rest != "" && !IsSpace(rest[0])
    ensures TrimLeft(pre + rest) == rest
  {
    hide IsSpace, BLANKS;
    if pre == "" {
      assert pre + rest == rest;
    } else {
      assert (pre + rest)[1..] == pre[1..] + rest;
      IsSpaceIff(pre[0]);
      TrimLeftDrops(pre[1..], rest);
    }
  }

  lemma {:induction false} TrimRightDrops(rest: string, post: string)
    requires AllSpace(post) && rest != "" && !IsSpace(rest[|rest| - 1])
    ensures TrimRight(rest + post) == rest
  {
    hide IsSpace, BLANKS;
    if post == "" {
      assert rest + post == rest;
    } else {
      assert (rest + post)[..|rest + post| - 1] == rest + post[..|post| - 1];
      IsSpaceIff(post[|post| - 1]);
      TrimRightDrops(rest, post[..|post| - 1]);
    }
  }

  /** GetIndexedTransactionsByAddress. */
  function QueryAddress(db: Db, address: string, page: int, pageSize: int, up: bool): Result<seq<AddressTransaction>> {
    var lower := ToLower(TrimSpace(address));
    if !ValidAddress(lower) then Err(InvalidAddress)
    else if !up && IndexedPage(db, lower, page, pageSize).Ok? then Err(DbFailure)
    else IndexedPage(db, lower, page, pageSize)
  }

  const HEX_DIGITS: string := "0123456789abcdefABCDEF"

  predicate AnyCaseAddress(address: string) {
    |address| == 42 && address[0] == '0' && (address[1] == 'x' || address[1] == 'X') && forall i | 2 <= i < 42 :: address[i] in HEX_DIGITS
  }

  lemma HexCharIff(c: char)
    ensures IsHexChar(c) <==> c in HEX_DIGITS
    ensures c in HEX_DIGITS ==> !IsSpace(c)
  {
  }

  predicate Padded(s: string, pre: string, core: string, post: string) {
    s == pre + core + post && AllSpace(pre) && AllSpace(post)
  }

  /** An address in any letter case, with any blanks around it. */
  ghost predicate PaddedAddress(s: string) {
    exists pre, core, post :: Padded(s, pre, core, post) && AnyCaseAddress(core)
  }

  lemma TrimmedAddressIff(s: string)
    ensures AnyCaseAddress(TrimSpace(s)) <==> PaddedAddress(s)
  {
    if AnyCaseAddress(TrimSpace(s)) {
      hide *;
      var pre, post := TrimSplits(s);
      PaddedWitness(s, pre, TrimSpace(s), post);
    }
    if PaddedAddress(s) {
      var pre, core, post :| Padded(s, pre, core, post) && AnyCaseAddress(core);
      TrimOfPadded(s, pre, core, post);
    }
  }

  lemma TrimOfPadded(s: string, pre: string, core: string, post: string)
    requires Padded(s, pre, core, post) && AnyCaseAddress(core)
    ensures TrimSpace(s) == core
  {
    hide IsSpace, BLANKS, HEX_DIGITS;
    HexCharIff(core[|core| - 1]);
    assert !IsSpace(core[0]) by { ZeroIsNoSpace(); }
    TrimLeftDrops(pre, core + post);
    assert s == pre + (core + post);
    TrimRightDrops(core, post);
  }

  lemma ZeroIsNoSpace()
    ensures !IsSpace('0')
  {
  }

  lemma TrimSplits(s: string) returns (pre: string, post: string)
    ensures Padded(s, pre, TrimSpace(s), post)
  {
    hide IsSpace;
    pre := TrimLeftSplits(s);
    post := TrimRightSplits(TrimLeft(s));
  }

  lemma PaddedWitness(s: string, pre: string, core: string, post: string)
    requires Padded(s, pre, core, post) && AnyCaseAddress(core)
    ensures PaddedAddress(s)
  {
  }

  /** Which requests are refused, and which complaint comes first. Letter case and blanks around the address do not matter. */
  lemma RefusalsIff(db: Db, address: string, page: int, pageSize: int, up: bool)
    ensures var r := QueryAddress(db, address, page, pageSize, up);
            var paging := page > 0 && 0 < pageSize <= 100;
            && (r == Err(InvalidAddress) <==> !PaddedAddress(address))
            && (r == Err(InvalidPagination) <==> PaddedAddress(address) && !paging)
            && (r == Err(DbFailure) <==> PaddedAddress(address) && paging && !up)
            && (r.Ok? <==> PaddedAddress(address) && paging && up)
  {
    LowerKeepsValidity(TrimSpace(address));
    TrimmedAddressIff(address);
    hide ToLower, TrimSpace, ValidAddress, AnyCaseAddress, PaddedAddress, TransactionsByAddress;
  }

  lemma LowerKeepsValidity(address: string)
    ensures ValidAddress(ToLower(address)) <==> AnyCaseAddress(address)
  {
    var lower := ToLower(address);
    forall i | 0 <= i < |address|
      ensures IsHexChar(lower[i]) <==> address[i] in HEX_DIGITS
    {
      HexCharIff(address[i]);
    }
    hide HEX_DIGITS;
    assert |address| == 42 && AnyCaseAddress(address) ==> ValidAddress(lower);
    if ValidAddress(lower) {
      assert forall i | 2 <= i < 42 :: IsHexChar(lower[i]);
    }
  }

  // ---- Letter case ----

  const SMALL: string := "abcdefghijklmnopqrstuvwxyz"

  const CAPITAL: string := "ABCDEFGHIJKLMNOPQRSTUVWXYZ"

  /** The same character, or one letter in its two cases. */
  predicate SameLetter(x: char, y: char) {
    x == y || exists k :: 0 <= k < 26 && ((x == SMALL[k] && y == CAPITAL[k]) || (x == CAPITAL[k] && y == SMALL[k]))
  }

  predicate SameText(a: string, b: string) {
    |a| == |b| && forall i | 0 <= i < |a| :: SameLetter(a[i], b[i])
  }

  lemma LetterAt(k: nat)
    requires k < 26
    ensures SMALL[k] == 'a' + k as char && CAPITAL[k] == 'A' + k as char
  {
  }

  lemma SameLetterIff(x: char, y: char)
    ensures LowerChar(x) == LowerChar(y) <==> SameLetter(x, y)
  {
    forall k: nat | k < 26
      ensures SMALL[k] == 'a' + k as char && CAPITAL[k] == 'A' + k as char
    {
      LetterAt(k);
    }
    hide SMALL, CAPITAL;
    if 'A' <= x <= 'Z' {
      assert CAPITAL[(x - 'A') as int] == x;
    }
    if 'A' <= y <= 'Z' {
      assert CAPITAL[(y - 'A') as int] == y;
    }
  }

  /** Lower-casing makes two texts equal exactly when they agree letter by letter up to case. */
  lemma SameTextIff(a: string, b: string)
    ensures ToLower(a) == ToLower(b) <==> SameText(a, b)
  {
    hide LowerChar, SameLetter;
    var x, y := ToLower(a), ToLower(b);
    forall i | 0 <= i < |a| && i < |b|
      ensures x[i] == y[i] <==> SameLetter(a[i], b[i])
    {
      SameLetterIff(a[i], b[i]);
    }
    if x == y {
      assert forall i | 0 <= i < |a| :: x[i] == y[i];
    }
  }

  function Described(txs: seq<TxRow>, address: string): (r: seq<AddressTransaction>)
    ensures |r| == |txs|
    ensures forall i | 0 <= i < |r| :: r[i] == ToAddressTransaction(txs[i], address)
  {
    seq(|txs|, i requires 0 <= i < |txs| => ToAddressTransaction(txs[i], address))
  }

  /** The rows shown by pages 1..k, one after the other. */
  function JoinedPages(db: Db, address: string, pageSize: nat, k: nat): seq<TxRow> {
    if k == 0 then []
    else JoinedPages(db, address, pageSize, k - 1) + TransactionsByAddress(db, address, pageSize, Offset(k, pageSize))
  }

  /** The computed offset is the intended one exactly while it fits a signed 64-bit integer. */
  lemma OffsetExactIff(page: int, pageSize: int)
    requires 0 < page < TWO_63 && 0 < pageSize <= 100
    ensures Offset(page, pageSize) == (page - 1) * pageSize <==> (page - 1) * pageSize < TWO_63
  {
    var offset := (page - 1) * pageSize;
    assert 0 <= offset;
  }

  /** Past that bound a page can show the first page again, although nothing lies there. */
  lemma OverflowingPageRepeatsTheFirst(db: Db, address: string)
    ensures TransactionsByAddress(db, address, 100, Offset(92233720368547760, 100)) ==
            TransactionsByAddress(db, address, 100, Offset(1, 100))
    ensures (92233720368547760 - 1) * 100 >= TWO_63
  {
    assert Offset(92233720368547760, 100) < 0;
  }

  lemma WindowExtends<T>(s: seq<T>, limit: nat, done: nat)
    requires limit > 0
    ensures Take(s, done) + Window(s, limit, done) == Take(s, done + limit)
  {
    if done == 0 {
      assert Take(s, 0) == [];
    } else if done < |s| {
      if limit < |s[done..]| {
        assert s[..done] + s[done..][..limit] == s[..done + limit];
      } else {
        assert s[..done] + s[done..] == s;
      }
    }
  }

  /** The rows shown by all pages but the last. */
  function ShownBefore(k: int, pageSize: nat): (r: int)
    ensures k > 0 ==> r >= 0
  {
    (k - 1) * pageSize
  }

  lemma OnePageMore(k: nat, pageSize: nat)
    requires 0 < k < TWO_63 && 0 < pageSize <= 100 && ShownBefore(k, pageSize) < TWO_63
    ensures ShownBefore(k, pageSize) + pageSize == k * pageSize && ShownBefore(k, pageSize) == (k - 1) * pageSize
    ensures ShownBefore(k - 1, pageSize) <= ShownBefore(k, pageSize) && ShownBefore(k, pageSize) >= 0
    ensures Offset(k, pageSize) == ShownBefore(k, pageSize)
  {
    OffsetExactIff(k, pageSize);
  }

  lemma NoPages(db: Db, address: string, pageSize: nat)
    ensures JoinedPages(db, address, pageSize, 0) == Take(AddressHistory(db, address), 0 * pageSize)
  {
    assert 0 * pageSize == 0;
    assert Take(AddressHistory(db, address), 0) == [];
  }

  lemma AppendPage(db: Db, address: string, pageSize: nat, k: nat, done: nat)
    requires k > 0 && pageSize > 0 && Offset(k, pageSize) == done
    requires JoinedPages(db, address, pageSize, k - 1) == Take(AddressHistory(db, address), done)
    ensures JoinedPages(db, address, pageSize, k) == Take(AddressHistory(db, address), done + pageSize)
  {
    WindowExtends(AddressHistory(db, address), pageSize, done);
    hide AddressHistory, Take, Window, Offset;
  }

  /** Joining pages 1..k gives the first k * pageSize rows of the one newest-first history. */
  lemma {:induction false} PagesArePrefix(db: Db, address: string, pageSize: nat, k: nat)
    requires 0 < pageSize <= 100 && k < TWO_63 && ShownBefore(k, pageSize) < TWO_63
    ensures JoinedPages(db, address, pageSize, k) == Take(AddressHistory(db, address), k * pageSize)
  {
    hide *;
    if k == 0 {
      NoPages(db, address, pageSize);
    } else {
      OnePageMore(k, pageSize);
      PagesArePrefix(db, address, pageSize, k - 1);
      AppendPage(db, address, pageSize, k, ShownBefore(k, pageSize));
    }
  }

  /** Enough pages show every matching transaction, once each, and nothing else. */
  lemma PagesShowEachOnce(db: Db, address: string, pageSize: nat, k: nat)
    requires 0 < pageSize <= 100 && k < TWO_63 && ShownBefore(k, pageSize) < TWO_63
    ensures var shown := JoinedPages(db, address, pageSize, k);
            && (forall i, j | 0 <= i < j < |shown| :: shown[i] != shown[j] && TxAfter(shown[i], shown[j]))
            && (forall x | x in shown :: x in db.txs.Values && (x.fromAddressLower == address || x.toAddressLower == address))
            && (k * pageSize >= |AddressHistory(db, address)| ==>
                  forall x | x in db.txs.Values && (x.fromAddressLower == address || x.toAddressLower == address) :: x in shown)
  {
    PagesArePrefix(db, address, pageSize, k);
    var history := AddressHistory(db, address);
    var shown := JoinedPages(db, address, pageSize, k);
    assert forall i | 0 <= i < |shown| :: shown[i] == history[i];
    assert forall x | x in shown :: x in history;
  }

  predicate DirectionRight(item: AddressTransaction, address: string) {
    && item.direction != Unknown
    && (item.direction == Self <==> item.row.fromAddressLower == address && item.row.toAddressLower == address)
    && item.counterparty == if item.direction == In then item.row.fromAddress else item.row.toAddress
  }

  lemma WindowMembers<T(!new)>(s: seq<T>, limit: nat, offset: int)
    ensures forall x | x in Window(s, limit, offset) :: x in s
  {
  }

  /** Every item of a page is self, out or in; the counterparty is the other side. */
  lemma DirectionsKnown(db: Db, address: string, page: int, pageSize: int)
    requires 0 < page && 0 < pageSize <= 100
    ensures IndexedPage(db, address, page, pageSize).Ok?
    ensures forall item | item in IndexedPage(db, address, page, pageSize).value :: DirectionRight(item, address)
  {
    hide AddressHistory;
    var txs := TransactionsByAddress(db, address, pageSize, Offset(page, pageSize));
    WindowMembers(AddressHistory(db, address), pageSize, Offset(page, pageSize));
    forall i | 0 <= i < |txs|
      ensures DirectionRight(ToAddressTransaction(txs[i], address), address)
    {
      assert txs[i] in txs;
    }
  }

  // ---- The history is the chain's ----

  predicate SentBy(tx: RpcTx, address: string) {
    tx.sender.Some? && SameText(tx.sender.value, address)
  }

  predicate SentTo(tx: RpcTx, address: string) {
    tx.to.Some? && SameText(tx.to.value, address)
  }

  predicate Involves(tx: RpcTx, address: string) {
    SentBy(tx, address) || SentTo(tx, address)
  }

  /** The item says which side of the transaction the address was on, and who was on the other. */
  predicate DescribesSides(item: AddressTransaction, tx: RpcTx, address: string) {
    match item.direction
    case Self => SentBy(tx, address) && SentTo(tx, address) && tx.to == Some(item.counterparty)
    case Out => SentBy(tx, address) && !SentTo(tx, address) && item.counterparty == (if tx.to.Some? then tx.to.value else "")
    case In => !SentBy(tx, address) && SentTo(tx, address) && tx.sender == Some(item.counterparty)
    case Unknown => false
  }

  /** The stored columns are the transaction's own. */
  predicate ColumnsOf(row: TxRow, tx: RpcTx) {
    && row.hash == tx.hash
    && tx.sender == Some(row.fromAddress) && row.toAddress == (if tx.to.Some? then tx.to.value else "")
    && row.body.nonce == tx.body.nonce && row.body.valueWei == tx.body.valueWei
    && row.body.gasLimit == tx.body.gasLimit && row.body.gasPriceWei == tx.body.gasPriceWei
    && row.body.inputData == tx.body.inputData
  }

  /** The item shows the stored row of a transaction of a stored block, at its place in the body. */
  ghost predicate FromChain(w: World, db: Db, item: AddressTransaction, address: string) {
    && item.row.hash in db.txs && item.row == db.txs[item.row.hash]
    && item.row.blockNumber in db.blocks && db.blocks[item.row.blockNumber].hash in w.blocks &&
    var txs := w.blocks[db.blocks[item.row.blockNumber].hash].txs;
    item.row.txIndex < |txs| && ColumnsOf(item.row, txs[item.row.txIndex])
    && DescribesSides(item, txs[item.row.txIndex], address)
  }

  ghost predicate InHistory(db: Db, address: string, h: Hash) {
    exists x :: x in AddressHistory(db, ToLower(address)) && x.hash == h
  }

  /**
   * Everything in the history of an address, however its letters are written, is a chain transaction of it, and no
   * such transaction of a stored block is missing.
   */
  ghost predicate HistoryOfChain(w: World, db: Db, address: string) {
    && (forall x | x in AddressHistory(db, ToLower(address)) ::
          FromChain(w, db, ToAddressTransaction(x, ToLower(address)), address))
    && (forall n | n in db.blocks && db.blocks[n].hash in w.blocks ::
          var txs := w.blocks[db.blocks[n].hash].txs;
          forall i | 0 <= i < |txs| && Involves(txs[i], address) :: InHistory(db, address, txs[i].hash))
  }

  /** The stored columns of a row that agrees with its block. */
  lemma RowColumns(w: World, db: Db, x: TxRow)
    requires Agreement(w, db) && x in db.txs.Values
    ensures x.blockNumber in db.blocks && x.blockHash == db.blocks[x.blockNumber].hash && x.blockHash in w.blocks
    ensures var txs := w.blocks[x.blockHash].txs; x.txIndex < |txs| && ColumnsOf(x, txs[x.txIndex])
    ensures x.fromAddressLower == ToLower(x.fromAddress) && x.toAddressLower == ToLower(x.toAddress)
  {
    hide ToLower;
    assert TxRowAgrees(w, db, db.txs[x.hash]);
    var row := x.WithoutReceipt();
    assert row.hash == x.hash && row.fromAddress == x.fromAddress && row.toAddress == x.toAddress && row.body == x.body;
    assert row.fromAddressLower == x.fromAddressLower && row.toAddressLower == x.toAddressLower;
    LowerOfNothing();
  }

  lemma LowerOfNothing()
    ensures ToLower("") == ""
  {
  }

  /** The lower-case columns match the lower-case query exactly when the texts agree up to case. */
  lemma SidesOf(row: TxRow, tx: RpcTx, address: string)
    requires ColumnsOf(row, tx) && address != ""
    requires row.fromAddressLower == ToLower(row.fromAddress) && row.toAddressLower == ToLower(row.toAddress)
    ensures row.fromAddressLower == ToLower(address) <==> SentBy(tx, address)
    ensures row.toAddressLower == ToLower(address) <==> SentTo(tx, address)
  {
    SameTextIff(row.fromAddress, address);
    SameTextIff(row.toAddress, address);
  }

  lemma RowDescribed(w: World, db: Db, x: TxRow, address: string)
    requires Agreement(w, db) && address != "" && x in db.txs.Values
    requires x.fromAddressLower == ToLower(address) || x.toAddressLower == ToLower(address)
    ensures FromChain(w, db, ToAddressTransaction(x, ToLower(address)), address)
  {
    RowColumns(w, db, x);
    SidesOf(x, w.blocks[x.blockHash].txs[x.txIndex], address);
    hide ToLower, SameText, Agreement;
  }

  lemma AgreementGivesHistory(w: World, db: Db, address: string)
    requires WellFormed(w) && Agreement(w, db) && address != ""
    ensures HistoryOfChain(w, db, address)
  {
    hide ToLower, FromChain, Involves, InHistory, Agreement, WellFormed;
    forall x | x in AddressHistory(db, ToLower(address))
      ensures FromChain(w, db, ToAddressTransaction(x, ToLower(address)), address)
    {
      RowDescribed(w, db, x, address);
    }
    forall n, i | n in db.blocks && db.blocks[n].hash in w.blocks && 0 <= i < |w.blocks[db.blocks[n].hash].txs|
        && Involves(w.blocks[db.blocks[n].hash].txs[i], address)
      ensures InHistory(db, address, w.blocks[db.blocks[n].hash].txs[i].hash)
    {
      BodyTxInHistory(w, db, address, n, i);
    }
  }

  lemma BodyTxInHistory(w: World, db: Db, address: string, n: uint64, i: nat)
    requires WellFormed(w) && Agreement(w, db) && n in db.blocks && db.blocks[n].hash in w.blocks && address != ""
    requires i < |w.blocks[db.blocks[n].hash].txs| && Involves(w.blocks[db.blocks[n].hash].txs[i], address)
    ensures InHistory(db, address, w.blocks[db.blocks[n].hash].txs[i].hash)
  {
    hide ToLower, SameText;
    var block := w.blocks[db.blocks[n].hash];
    assert BodyStored(db, n, block);
    assert BodyTxStored(db, n, block, i);
    var x := db.txs[block.txs[i].hash];
    RowColumns(w, db, x);
    SidesOf(x, block.txs[i], address);
    assert x in AddressHistory(db, ToLower(address));
  }

  /**
   * In every state reached by interleaved calls over a fixed chain, the history of an address is exactly the chain's
   * transactions from or to it in the stored blocks, compared without regard to letter case.
   */
  lemma HistoryIsTheChains(w: World, full: bool, startBlock: uint64, events: seq<Event>, address: string)
    requires SingleChain(w) && AnyCaseAddress(address)
    ensures HistoryOfChain(w, Run(ChainNode(w, !full), startBlock, INIT, events).db, address)
  {
    AlwaysOnChain(w, full, startBlock, events);
    AgreementGivesHistory(w, Run(ChainNode(w, !full), startBlock, INIT, events).db, address);
  }

  // ---- The whole query ----

  /**
   * A page, however the address is written, holds the rows of its history from position (page-1) * page_size on, as
   * many as fit, each as stored and described from the side of the address.
   */
  lemma PageIsSlice(db: Db, s: string, pre: string, core: string, post: string, page: nat, pageSize: nat)
    requires Padded(s, pre, core, post) && AnyCaseAddress(core)
    requires 0 < page < TWO_63 && 0 < pageSize <= 100 && ShownBefore(page, pageSize) < TWO_63
    ensures ShowsSlice(QueryAddress(db, s, page, pageSize, true), AddressHistory(db, ToLower(core)),
                       ShownBefore(page, pageSize), pageSize, ToLower(core))
  {
    TrimOfPadded(s, pre, core, post);
    LowerKeepsValidity(core);
    assert QueryAddress(db, s, page, pageSize, true) == IndexedPage(db, ToLower(core), page, pageSize);
    hide *;
    IndexedPageIsSlice(db, ToLower(core), page, pageSize);
  }

  lemma IndexedPageIsSlice(db: Db, lower: string, page: nat, pageSize: nat)
    requires 0 < page < TWO_63 && 0 < pageSize <= 100 && ShownBefore(page, pageSize) < TWO_63
    ensures ShowsSlice(IndexedPage(db, lower, page, pageSize), AddressHistory(db, lower), ShownBefore(page, pageSize), pageSize, lower)
  {
    OnePageMore(page, pageSize);
    DescribedSlice(AddressHistory(db, lower), ShownBefore(page, pageSize), pageSize, lower);
    hide AddressHistory, ShownBefore, Offset, Window, ShowsSlice, Described;
  }

  lemma DescribedSlice(history: seq<TxRow>, done: nat, pageSize: nat, lower: string)
    ensures ShowsSlice(Ok(Described(Window(history, pageSize, done), lower)), history, done, pageSize, lower)
  {
    WindowIsSlice(history, pageSize, done);
    hide Window;
  }

  predicate ShowsSlice(
    answer: Result<seq<AddressTransaction>>, history: seq<TxRow>, done: nat, pageSize: nat, lower: string)
  {
    answer.Ok? &&
    var items := answer.value;
    && |items| == (if |history| <= done then 0 else if |history| - done <= pageSize then |history| - done else pageSize)
    && forall i | 0 <= i < |items| ::
         items[i].row == history[done + i] && items[i] == ToAddressTransaction(history[done + i], lower)
  }

  lemma WindowIsSlice<T>(s: seq<T>, limit: nat, done: nat)
    ensures var r := Window(s, limit, done);
            && |r| == (if |s| <= done then 0 else if |s| - done <= limit then |s| - done else limit)
            && forall i | 0 <= i < |r| :: r[i] == s[done + i]
  {
  }

  /** Changing the case of a letter makes no blank and keeps what an address may hold. */
  predicate KindKept(x: char, y: char) {
    && (x in BLANKS ==> y in BLANKS)
    && (x in HEX_DIGITS ==> y in HEX_DIGITS)
    && (x == '0' ==> y == '0')
    && (x == 'x' || x == 'X' ==> y == 'x' || y == 'X')
  }

  lemma CasesOf(x: char, y: char)
    requires SameLetter(x, y) && x != y
    ensures ('a' <= x <= 'z' && y == 'A' + (x - 'a')) || ('A' <= x <= 'Z' && y == 'a' + (x - 'A'))
  {
    var k: nat :| k < 26 && ((x == SMALL[k] && y == CAPITAL[k]) || (x == CAPITAL[k] && y == SMALL[k]));
    LetterAt(k);
  }

  lemma SameLetterKeepsKind(x: char, y: char)
    requires SameLetter(x, y)
    ensures KindKept(x, y)
  {
    hide SameLetter, BLANKS, HEX_DIGITS;
    if x != y {
      CasesOf(x, y);
      IsSpaceIff(x);
      HexCharIff(x);
      HexCharIff(y);
    }
  }

  lemma KindsKept(s: string, s': string, i: nat, j: nat)
    requires SameText(s, s') && i <= j <= |s|
    ensures forall k | 0 <= k < j - i :: KindKept(s[i..j][k], s'[i..j][k])
    ensures SameText(s[i..j], s'[i..j])
  {
    hide SameLetter, KindKept;
    forall k | 0 <= k < j - i
      ensures KindKept(s[i..j][k], s'[i..j][k]) && SameLetter(s[i..j][k], s'[i..j][k])
    {
      SameLetterKeepsKind(s[i + k], s'[i + k]);
    }
  }

  lemma SameTextPadded(s: string, pre: string, core: string, post: string, s': string)
    returns (pre': string, core': string, post': string)
    requires SameText(s, s') && Padded(s, pre, core, post) && AnyCaseAddress(core)
    ensures Padded(s', pre', core', post') && AnyCaseAddress(core') && SameText(core, core')
  {
    hide SameText, SameLetter, BLANKS, HEX_DIGITS;
    var a, b := |pre|, |pre| + |core|;
    assert |s'| == |s| by { SameLength(s, s'); }
    pre', core', post' := s'[0..a], s'[a..b], s'[b..|s|];
    assert s' == pre' + core' + post';
    assert pre == s[0..a] && core == s[a..b] && post == s[b..|s|];
    KindsKept(s, s', 0, a);
    KindsKept(s, s', a, b);
    KindsKept(s, s', b, |s|);
    assert KindKept(core[0], core'[0]) && KindKept(core[1], core'[1]);
  }

  lemma SameLength(s: string, s': string)
    requires SameText(s, s')
    ensures |s| == |s'|
  {
  }

  lemma SameTextSymmetric(a: string, b: string)
    requires SameText(a, b)
    ensures SameText(b, a)
  {
  }

  /** Two texts that agree letter by letter up to case get the same answer. */
  lemma CaseDoesNotMatter(db: Db, s: string, s': string, page: int, pageSize: int, up: bool)
    requires SameText(s, s')
    ensures QueryAddress(db, s, page, pageSize, up) == QueryAddress(db, s', page, pageSize, up)
  {
    RefusalsIff(db, s, page, pageSize, up);
    RefusalsIff(db, s', page, pageSize, up);
    SameTextSymmetric(s, s');
    if PaddedAddress(s) {
      var pre, core, post :| Padded(s, pre, core, post) && AnyCaseAddress(core);
      var pre', core', post' := SameTextPadded(s, pre, core, post, s');
      TrimOfPadded(s, pre, core, post);
      TrimOfPadded(s', pre', core', post');
      SameTextIff(core, core');
    } else if PaddedAddress(s') {
      var pre, core, post :| Padded(s', pre, core, post) && AnyCaseAddress(core);
      var pre', core', post' := SameTextPadded(s', pre, core, post, s);
      assert false;
    }
  }

  // ---- The order of the queries leaves no choice where the tables agree ----

  predicate Descending(a: TxRow, b: TxRow) {
    a.blockNumber > b.blockNumber || (a.blockNumber == b.blockNumber && a.txIndex >= b.txIndex)
  }

  lemma PositionsDiffer(w: World, db: Db, a: TxRow, b: TxRow)
    requires WellFormed(w) && Agreement(w, db) && a in db.txs.Values && b in db.txs.Values && a != b
    ensures a.blockNumber != b.blockNumber || a.txIndex != b.txIndex
  {
    AgreementOnTables(w, db);
    assert db.txs[a.hash] == a && db.txs[b.hash] == b;
  }

  /** Any answer the database may give to ORDER BY block_number DESC, tx_index DESC is the history. */
  lemma HistoryOrderIsUnique(w: World, db: Db, address: string, rows: seq<TxRow>)
    requires WellFormed(w) && Agreement(w, db)
    requires forall x :: x in rows <==> x in AddressHistory(db, address)
    requires forall i, j | 0 <= i < j < |rows| :: rows[i] != rows[j] && Descending(rows[i], rows[j])
    ensures rows == AddressHistory(db, address)
  {
    var history := AddressHistory(db, address);
    var s := set x | x in history;
    TxOrderTotal(db, s);
    forall i, j | 0 <= i < j < |rows|
      ensures TxAfter(rows[i], rows[j])
    {
      assert rows[i] in history && rows[j] in history;
      PositionsDiffer(w, db, rows[i], rows[j]);
    }
    SortedIsUnique(rows, history, s, TxAfter);
  }

  /** Any answer the database may give to the missing-receipt query is the list the serial model uses. */
  lemma ListingIsUnique(w: World, db: Db, n: uint64, rows: seq<TxRow>)
    requires WellFormed(w) && Agreement(w, db) && IsListing(db, n, rows)
    ensures rows == MissingReceipts(db, n)
  {
    var s := MissingRows(db, n);
    TxOrderTotal(db, s);
    forall i, j | 0 <= i < j < |rows|
      ensures TxBefore(rows[i], rows[j])
    {
      assert rows[i] in s && rows[j] in s;
      PositionsDiffer(w, db, rows[i], rows[j]);
    }
    SortedIsUnique(rows, MissingReceipts(db, n), s, TxBefore);
  }
}
