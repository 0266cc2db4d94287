/** One row per user; a row that becomes empty disappears. */
module Tables {
  import opened Records

  function Row<K, V>(table: map<UserId, map<K, V>>, user: UserId): map<K, V> {
    if user in table then table[user] else map[]
  }

  function Assign<K, V>(table: map<UserId, map<K, V>>, user: UserId, row: map<K, V>): map<UserId, map<K, V>> {
    if row == map[] then table - {user} else table[user := row]
  }

  /** No user has an empty row. */
  ghost predicate Canonical<K, V>(table: map<UserId, map<K, V>>) {
    forall user :: user in table ==> table[user] != map[]
  }

  lemma RowAssign<K, V>(table: map<UserId, map<K, V>>, user: UserId, row: map<K, V>)
    ensures Row(Assign(table, user, row), user) == row
    ensures forall other :: other != user ==> Row(Assign(table, user, row), other) == Row(table, other)
    ensures Canonical(table) ==> Canonical(Assign(table, user, row))
    ensures Canonical(table) ==> Assign(table, user, Row(table, user)) == table
    ensures forall row' :: Assign(Assign(table, user, row), user, row') == Assign(table, user, row')
  {
  }

  lemma AssignSame<K, V>(table: map<UserId, map<K, V>>, user: UserId)
    requires Canonical(table)
    ensures Assign(table, user, Row(table, user)) == table
  {
  }
}
