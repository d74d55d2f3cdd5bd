/** The configuration records shared by every component (internal/domain/types.go). */
module Domain {
  const DEFAULT_INTERVAL_MIN := 60
  const DEFAULT_MAX_BACKUPS := 20

  datatype Option<+T> = None | Some(value: T)

  datatype Result<+T, +E> = Ok(value: T) | Err(error: E)

  datatype SSHConfig = SSHConfig(
    host: string, port: int, username: string, authMethod: string,
    password: string, privateKeyPath: string, privateKeyValue: string)

  datatype BackupItem = BackupItem(
    id: string, containerName: string, containerPath: string, backupName: string,
    localTargetPath: string, intervalMinutes: int, maxBackups: int)

  function IdsOf(items: seq<BackupItem>): set<string> {
    set i | 0 <= i < |items| :: items[i].id
  }

  ghost predicate UniqueIds(items: seq<BackupItem>) {
    forall i, j :: 0 <= i < j < |items| ==> items[i].id != items[j].id
  }

  lemma AddId(items: seq<BackupItem>, i: nat)
    requires i < |items|
    ensures IdsOf(items[..i + 1]) == IdsOf(items[..i]) + {items[i].id}
  {
    assert items[..i + 1] == items[..i] + [items[i]];
    forall id | id in IdsOf(items[..i]) + {items[i].id} ensures id in IdsOf(items[..i + 1]) {
      if id != items[i].id {
        var j :| 0 <= j < i && items[..i][j].id == id;
        assert items[..i + 1][j].id == id;
      } else {
        assert items[..i + 1][i].id == id;
      }
    }
  }

  lemma UniqueAt(items: seq<BackupItem>, i: nat, j: nat)
    requires UniqueIds(items) && i < |items| && j < |items|
    ensures items[i].id == items[j].id <==> i == j
  {
  }
}
