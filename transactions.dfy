/** Transactions: immutable records with an id and a content tag. */
module Transactions {
  import opened Digests

  /** One transaction. Every field is fixed when it is created. */
  datatype Transaction = Transaction(
    id: string,
    sender: string,
    receiver: string,
    data: string,
    txType: string,
    timestamp: Timestamp,
    signature: string)   // the content tag (a hash, not an authentication proof)

  /** The content tag over sender, receiver, payload and creation time. */
  function Sign(h: Hasher, sender: string, receiver: string, data: string, stamp: Timestamp): (tag: string)
    ensures |tag| == 16
  {
    h(Content(sender, receiver, data, stamp))
  }

  /** Builds a transaction. `clock` and `draw` stand for `time.time()` and the
      random number in the id, `created` for `datetime.now()`. */
  function CreateTransaction(h: Hasher, sender: string, receiver: string, data: string, txType: string,
                             clock: Timestamp, draw: int, created: Timestamp): (tx: Transaction)
    requires 0 <= draw <= 9999
    ensures |tx.id| == 12 && tx.id == h(Nonce(clock, draw))[..12]
    ensures |tx.signature| == 16
    ensures tx.sender == sender && tx.receiver == receiver && tx.data == data
    ensures tx.txType == txType && tx.timestamp == created
    ensures tx.signature == Sign(h, tx.sender, tx.receiver, tx.data, tx.timestamp)
  {
    Transaction(h(Nonce(clock, draw))[..12], sender, receiver, data, txType, created,
                Sign(h, sender, receiver, data, created))
  }

  /** The content tag depends on the content alone: neither the id nor the type enter it. */
  lemma TagDependsOnContentOnly(h: Hasher, sender: string, receiver: string, data: string,
                                t1: string, t2: string, c1: Timestamp, c2: Timestamp,
                                d1: int, d2: int, created: Timestamp)
    requires 0 <= d1 <= 9999 && 0 <= d2 <= 9999
    ensures CreateTransaction(h, sender, receiver, data, t1, c1, d1, created).signature
         == CreateTransaction(h, sender, receiver, data, t2, c2, d2, created).signature
  {
  }

  /** The structural check a validator applies: a tag of at least ten
      characters, and a non-empty sender and receiver. */
  predicate WellFormed(tx: Transaction)
  {
    |tx.signature| >= 10 && tx.sender != "" && tx.receiver != ""
  }

  /** A transaction built by CreateTransaction always has a long enough tag,
      so it passes the check exactly when sender and receiver are non-empty. */
  lemma CreatedWellFormedIff(h: Hasher, sender: string, receiver: string, data: string, txType: string,
                             clock: Timestamp, draw: int, created: Timestamp)
    requires 0 <= draw <= 9999
    ensures WellFormed(CreateTransaction(h, sender, receiver, data, txType, clock, draw, created))
        <==> sender != "" && receiver != ""
  {
  }

  /** The seven keys `to_dict` produces. */
  const DictKeys: set<string> := {"id", "sender", "receiver", "data", "type", "timestamp", "signature"}

  /** The dictionary view of a transaction; `render` stands for the
      `%H:%M:%S.%f` formatting of the timestamp. */
  function ToDict(tx: Transaction, render: Timestamp -> string): (d: map<string, string>)
    ensures d.Keys == DictKeys
    ensures d["id"] == tx.id && d["signature"] == tx.signature && d["type"] == tx.txType
    ensures d["sender"] == tx.sender && d["receiver"] == tx.receiver && d["data"] == tx.data
    ensures d["timestamp"] == render(tx.timestamp)
  {
    map["id" := tx.id, "sender" := tx.sender, "receiver" := tx.receiver, "data" := tx.data,
        "type" := tx.txType, "timestamp" := render(tx.timestamp), "signature" := tx.signature]
  }

  /** Two transactions with the same dictionary agree on every field except
      possibly the timestamp, of which only the rendering is kept. */
  lemma ToDictDeterminesFields(a: Transaction, b: Transaction, render: Timestamp -> string)
    requires ToDict(a, render) == ToDict(b, render)
    ensures a.id == b.id && a.sender == b.sender && a.receiver == b.receiver && a.data == b.data
    ensures a.txType == b.txType && a.signature == b.signature && render(a.timestamp) == render(b.timestamp)
    ensures a.timestamp == b.timestamp ==> a == b
  {
    var da, db := ToDict(a, render), ToDict(b, render);
    assert da["id"] == db["id"] && da["sender"] == db["sender"] && da["receiver"] == db["receiver"];
    assert da["data"] == db["data"] && da["type"] == db["type"] && da["signature"] == db["signature"];
    assert da["timestamp"] == db["timestamp"];
  }
}
