/** A flat Redis database: every key holds a hash or a set, and empty ones do not exist. */
module Redis {
  datatype Value = Hash(fields: map<string, string>) | Set(members: set<string>)

  type Db = map<string, Value>

  predicate IsHash(db: Db, key: string) {
    key in db ==> db[key].Hash?
  }

  predicate IsSet(db: Db, key: string) {
    key in db ==> db[key].Set?
  }

  /** HGETALL. */
  function HashAt(db: Db, key: string): map<string, string> {
    if key in db && db[key].Hash? then db[key].fields else map[]
  }

  /** SMEMBERS. */
  function MembersAt(db: Db, key: string): set<string> {
    if key in db && db[key].Set? then db[key].members else {}
  }

  /** HSET or HMSET; on a key of the wrong type the command fails and writes nothing. */
  function HSet(db: Db, key: string, fields: map<string, string>): Db {
    if IsHash(db, key) && fields != map[] then db[key := Hash(HashAt(db, key) + fields)] else db
  }

  function SAdd(db: Db, key: string, member: string): Db {
    if IsSet(db, key) then db[key := Set(MembersAt(db, key) + {member})] else db
  }

  function SRem(db: Db, key: string, member: string): Db {
    if !IsSet(db, key) then db
    else
      var left := MembersAt(db, key) - {member};
      if left == {} then db - {key} else db[key := Set(left)]
  }

  function Del(db: Db, keys: set<string>): Db {
    db - keys
  }

  /** Nothing but the given key differs. */
  ghost predicate OnlyChanged(db: Db, db': Db, key: string) {
    forall k :: k != key ==> (k in db <==> k in db') && (k in db ==> db[k] == db'[k])
  }

  /** SMEMBERS in the arbitrary order Redis returns: every member once. */
  method Members(s: set<string>) returns (r: seq<string>)
    ensures forall x :: x in r <==> x in s
    ensures forall i, j :: 0 <= i < j < |r| ==> r[i] != r[j]
  {
    r := [];
    var left := s;
    while left != {}
      invariant left <= s
      invariant forall x :: x in r <==> x in s && x !in left
      invariant forall i, j :: 0 <= i < j < |r| ==> r[i] != r[j]
      decreases |left|
    {
      var x :| x in left;
      left := left - {x};
      r := r + [x];
    }
  }
}
