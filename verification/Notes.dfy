/** Reading all retrieved items in two passes: items keys into the keychain first, then notes. */
module Notes {
  import opened Basics
  import opened Vaults
  import opened Items
  import Hex
  import Environments

  function WithKey(chain: Chain, id: string, found: Opened): Chain {
    if found.itemsKey.Some? then chain.(itemsKey := chain.itemsKey[id := found.itemsKey.value]) else chain
  }

  /** The keychain after the first pass, or no value when an items key does not unseal. */
  function FirstPass(e: Env, chain: Chain, items: seq<Sealable>): Option<Chain>
    requires YieldsBytes(e)
  {
    if items == [] then Some(chain)
    else
      var last := items[|items| - 1];
      match FirstPass(e, chain, items[..|items| - 1])
      case None => None
      case Some(before) =>
        if last.contentType != ITEMS_KEY then Some(before)
        else
          match UnsealItem(e, before, last)
          case None => None
          case Some(found) => Some(WithKey(before, last.id, found))
  }

  function ItemValues(items: seq<Item>): (values: seq<Sealable>)
    reads items
    ensures |values| == |items| && forall k :: 0 <= k < |items| ==> values[k] == items[k].Value()
  {
    if items == [] then [] else ItemValues(items[..|items| - 1]) + [items[|items| - 1].Value()]
  }

  /** The first `k` items have taken the keychain from `chain` to `after`. */
  ghost predicate Collected(e: Env, chain: Chain, items: seq<Sealable>, k: nat, after: Chain)
    requires YieldsBytes(e) && k <= |items|
  {
    FirstPass(e, chain, items[..k]) == Some(after)
  }

  /** The first pass over the retrieved items. */
  method AppendItemsKeys(e: Env, keychain: KeyChain, items: seq<Item>) returns (ok: bool)
    requires YieldsBytes(e) && Distinct(items)
    modifies keychain, items
    ensures var after := FirstPass(e, old(keychain.Value()), old(ItemValues(items)));
            (ok <==> after.Some?) && (ok ==> keychain.Value() == after.value)
    ensures forall k :: 0 <= k < |items| && items[k].contentType != ITEMS_KEY ==>
              items[k].Value() == old(items[k].Value())
  {
    hide UnsealItem, YieldsBytes, Collected, FirstPass, WithKey;
    ghost var chain, values := keychain.Value(), ItemValues(items);
    NothingCollected(e, chain, values);
    for k := 0 to |items|
      invariant Collected(e, chain, values, k, keychain.Value())
      invariant forall j :: k <= j < |items| ==> items[j].Value() == values[j]
      invariant forall j :: 0 <= j < |items| && items[j].contentType != ITEMS_KEY ==> items[j].Value() == values[j]
    {
      CollectedStep(e, chain, values, k, keychain.Value());
      if items[k].contentType == ITEMS_KEY {
        ghost var before := keychain.Value();
        ok := items[k].Unseal(e, keychain);
        if !ok {
          return;
        }
        KeyIsAdded(before, keychain.Value(), values[k].id, UnsealItem(e, before, values[k]).value);
      }
    }
    AllCollected(e, chain, values, keychain.Value());
    ok := true;
  }

  lemma KeyIsAdded(before: Chain, after: Chain, id: string, found: Opened)
    requires after == before.(itemsKey := after.itemsKey)
    requires after.itemsKey == Extended(before.itemsKey, id, found.itemsKey)
    ensures after == WithKey(before, id, found)
  {
  }

  lemma NothingCollected(e: Env, chain: Chain, items: seq<Sealable>)
    requires YieldsBytes(e)
    ensures Collected(e, chain, items, 0, chain)
  {
    assert items[..0] == [];
  }

  /** An item that is no items key leaves the keychain alone; an items key is added, or the pass fails. */
  lemma CollectedStep(e: Env, chain: Chain, items: seq<Sealable>, k: nat, before: Chain)
    requires YieldsBytes(e) && k < |items| && Collected(e, chain, items, k, before)
    ensures items[k].contentType != ITEMS_KEY ==> Collected(e, chain, items, k + 1, before)
    ensures items[k].contentType == ITEMS_KEY ==>
              var found := UnsealItem(e, before, items[k]);
              if found.None? then FirstPass(e, chain, items) == None
              else Collected(e, chain, items, k + 1, WithKey(before, items[k].id, found.value))
  {
    hide UnsealItem, YieldsBytes, FirstPass;
    FirstPassStep(e, chain, items, k);
    if items[k].contentType == ITEMS_KEY && UnsealItem(e, before, items[k]).None? {
      FirstPassFails(e, chain, items, k);
    }
  }

  lemma AllCollected(e: Env, chain: Chain, items: seq<Sealable>, after: Chain)
    requires YieldsBytes(e) && Collected(e, chain, items, |items|, after)
    ensures FirstPass(e, chain, items) == Some(after)
  {
    assert items[..|items|] == items;
  }

  lemma FirstPassStep(e: Env, chain: Chain, items: seq<Sealable>, k: nat)
    requires YieldsBytes(e) && k < |items|
    ensures var before := FirstPass(e, chain, items[..k]);
            FirstPass(e, chain, items[..k + 1]) ==
              if before.None? then None
              else if items[k].contentType != ITEMS_KEY then before
              else
                var found := UnsealItem(e, before.value, items[k]);
                if found.None? then None else Some(WithKey(before.value, items[k].id, found.value))
  {
    assert items[..k + 1][..k] == items[..k];
  }

  lemma {:induction false} FirstPassFails(e: Env, chain: Chain, items: seq<Sealable>, k: nat)
    requires YieldsBytes(e) && k < |items| && FirstPass(e, chain, items[..k + 1]) == None
    ensures FirstPass(e, chain, items) == None
    decreases |items|
  {
    hide UnsealItem, YieldsBytes;
    var n := |items| - 1;
    if k < n {
      assert items[..n][..k + 1] == items[..k + 1];
      FirstPassFails(e, chain, items[..n], k);
    } else {
      assert items[..k + 1] == items;
    }
  }

  /** A note is read when it unseals and its metadata parses. */
  predicate ReadsNote(e: Env, chain: Chain, i: Sealable)
    requires YieldsBytes(e)
  {
    var found := UnsealItem(e, chain, i);
    found.Some? && found.value.item.note.Some? && e.parsesMetadata(found.value.item.note.value)
  }

  /** The second pass. */
  method UnsealNotes(e: Env, keychain: KeyChain, items: seq<Item>) returns (ok: bool)
    requires YieldsBytes(e) && Distinct(items)
    modifies keychain, items
    ensures ok <==> forall k :: 0 <= k < |items| && IsNote(old(items[k].Value())) ==>
              ReadsNote(e, old(keychain.Value()), old(items[k].Value()))
    ensures ok ==> forall k :: 0 <= k < |items| && IsNote(old(items[k].Value())) ==>
                     items[k].Value() == UnsealItem(e, old(keychain.Value()), old(items[k].Value())).value.item
    ensures ok ==> keychain.Value() == old(keychain.Value())
  {
    hide UnsealItem, YieldsBytes, ReadsNote;
    ghost var chain, values := keychain.Value(), ItemValues(items);
    for k := 0 to |items|
      invariant keychain.Value() == chain
      invariant forall j :: k <= j < |items| ==> items[j].Value() == values[j]
      invariant forall j :: 0 <= j < k && IsNote(values[j]) ==>
                  && UnsealItem(e, chain, values[j]).Some?
                     && items[j].Value() == UnsealItem(e, chain, values[j]).value.item
                  && ReadsNote(e, chain, values[j])
    {
      if items[k].contentType == USER_PREFERENCES || items[k].contentType == NOTE {
        NoteIsFound(e, chain, values[k]);
        ok := items[k].Unseal(e, keychain);
        if !ok {
          assert IsNote(values[k]) && !ReadsNote(e, chain, values[k]);
          return;
        }
        if !e.parsesMetadata(items[k].note.value) {
          assert IsNote(values[k]) && !ReadsNote(e, chain, values[k]);
          return false;
        }
      }
    }
    ok := true;
  }

  lemma NoteIsFound(e: Env, chain: Chain, i: Sealable)
    requires YieldsBytes(e) && IsNote(i)
    ensures var found := UnsealItem(e, chain, i);
            && (found.Some? ==> found.value.itemsKey == None && found.value.item.note.Some?)
            && (ReadsNote(e, chain, i) <==> found.Some? && e.parsesMetadata(found.value.item.note.value))
  {
    hide Parse, Vaults.Unseal, YieldsBytes;
  }

  /** Both passes. */
  method ReadAll(e: Env, keychain: KeyChain, items: seq<Item>) returns (ok: bool)
    requires YieldsBytes(e) && Distinct(items)
    modifies keychain, items
    ensures var after := FirstPass(e, old(keychain.Value()), old(ItemValues(items)));
            && (ok <==> after.Some? && AllReadable(e, after.value, old(ItemValues(items))))
            && (ok ==> keychain.Value() == after.value)
            && (ok ==> forall k :: 0 <= k < |items| && IsNote(old(items[k].Value())) ==>
                         items[k].Value() == UnsealItem(e, after.value, old(items[k].Value())).value.item)
  {
    hide FirstPass, UnsealItem, YieldsBytes, ReadsNote;
    ghost var values := ItemValues(items);
    ok := AppendItemsKeys(e, keychain, items);
    if ok {
      assert forall k :: 0 <= k < |items| && IsNote(values[k]) ==> items[k].Value() == values[k];
      ok := UnsealNotes(e, keychain, items);
    }
  }

  predicate AllReadable(e: Env, chain: Chain, items: seq<Sealable>)
    requires YieldsBytes(e)
  {
    forall k :: 0 <= k < |items| && IsNote(items[k]) ==> ReadsNote(e, chain, items[k])
  }

  // ---------------------------------------------------------------- The order of the list

  ghost predicate DistinctIds(items: seq<Sealable>) {
    forall i, j :: 0 <= i < j < |items| ==> items[i].id != items[j].id
  }

  /** An items key that unseals under the master key does so whatever has been collected already. */
  lemma ItemsKeyIgnoresChain(e: Env, chain: Chain, chain': Chain, i: Sealable)
    requires YieldsBytes(e) && i.contentType == ITEMS_KEY
    requires chain'.version == chain.version && chain'.master == chain.master && chain'.auth == chain.auth
    ensures UnsealItem(e, chain, i) == UnsealItem(e, chain', i)
  {
    hide Parse, Vaults.Unseal, YieldsBytes, ContentKeys;
  }

  /** Every items key of the list unseals under the account's master key. */
  ghost predicate KeysUnseal(e: Env, chain: Chain, items: seq<Sealable>)
    requires YieldsBytes(e)
  {
    forall k :: 0 <= k < |items| && items[k].contentType == ITEMS_KEY ==>
      UnsealItem(e, chain, items[k]).Some? && UnsealItem(e, chain, items[k]).value.itemsKey.Some?
  }

  /** An item is an items key that unseals to a key. */
  predicate GivesKey(e: Env, chain: Chain, i: Sealable, key: string)
    requires YieldsBytes(e)
  {
    var found := UnsealItem(e, chain, i);
    i.contentType == ITEMS_KEY && found.Some? && found.value.itemsKey == Some(key)
  }

  /** The items key a list holds under an id. */
  ghost predicate Provides(e: Env, chain: Chain, items: seq<Sealable>, id: string, key: string)
    requires YieldsBytes(e)
  {
    exists k :: 0 <= k < |items| && items[k].id == id && GivesKey(e, chain, items[k], key)
  }

  /** The first pass gets through the list exactly when every items key in it unseals. */
  lemma {:induction false} FirstPassIff(e: Env, chain: Chain, items: seq<Sealable>)
    requires YieldsBytes(e)
    ensures var after := FirstPass(e, chain, items);
            && (after.Some? <==> KeysUnseal(e, chain, items))
            && (after.Some? ==> after.value == chain.(itemsKey := after.value.itemsKey))
  {
    hide UnsealItem, YieldsBytes;
    if items != [] {
      var n := |items| - 1;
      FirstPassIff(e, chain, items[..n]);
      KeysUnsealStep(e, chain, items);
      var before := FirstPass(e, chain, items[..n]);
      if items[n].contentType == ITEMS_KEY {
        ItemsKeyIsFound(e, chain, items[n]);
        if before.Some? {
          ItemsKeyIgnoresChain(e, chain, before.value, items[n]);
        }
      }
    }
  }

  lemma KeysUnsealStep(e: Env, chain: Chain, items: seq<Sealable>)
    requires YieldsBytes(e) && items != []
    ensures var last := items[|items| - 1];
            KeysUnseal(e, chain, items)
            <==> && KeysUnseal(e, chain, items[..|items| - 1])
                 && (last.contentType == ITEMS_KEY ==>
                       UnsealItem(e, chain, last).Some? && UnsealItem(e, chain, last).value.itemsKey.Some?)
  {
    hide UnsealItem, YieldsBytes;
    var before, last := items[..|items| - 1], items[|items| - 1];
    if KeysUnseal(e, chain, before) {
      forall k | 0 <= k < |items| - 1 && items[k].contentType == ITEMS_KEY
        ensures UnsealItem(e, chain, items[k]).Some? && UnsealItem(e, chain, items[k]).value.itemsKey.Some?
      {
        assert before[k] == items[k];
      }
    }
  }

  lemma ItemsKeyIsFound(e: Env, chain: Chain, i: Sealable)
    requires YieldsBytes(e) && i.contentType == ITEMS_KEY
    ensures UnsealItem(e, chain, i).Some? ==> UnsealItem(e, chain, i).value.itemsKey.Some?
  {
    hide Parse, Vaults.Unseal, YieldsBytes;
  }

  /** Whatever the order of the list, the first pass adds to the keychain exactly the items keys in it. */
  lemma {:induction false} FirstPassCollects(e: Env, chain: Chain, items: seq<Sealable>)
    requires YieldsBytes(e) && DistinctIds(items) && KeysUnseal(e, chain, items)
    ensures var after := FirstPass(e, chain, items);
            && after.Some?
            && after.value == chain.(itemsKey := after.value.itemsKey)
            && (forall id, key :: Provides(e, chain, items, id, key) ==>
                  id in after.value.itemsKey && after.value.itemsKey[id] == key)
            && (forall id :: id in after.value.itemsKey ==>
                  (id in chain.itemsKey && after.value.itemsKey[id] == chain.itemsKey[id])
                    || Provides(e, chain, items, id, after.value.itemsKey[id]))
  {
    hide UnsealItem, YieldsBytes;
    if items != [] {
      var n := |items| - 1;
      var before, last := items[..n], items[n];
      FirstPassCollects(e, chain, before);
      var c := FirstPass(e, chain, before).value;
      forall id, key
        ensures Provides(e, chain, items, id, key) <==>
                Provides(e, chain, before, id, key)
                || (last.id == id && GivesKey(e, chain, last, key))
        ensures Provides(e, chain, before, id, key) ==> id != last.id
      {
        ProvidesStep(e, chain, items, id, key);
      }
      if last.contentType == ITEMS_KEY {
        ItemsKeyIgnoresChain(e, chain, c, last);
      }
    }
  }

  lemma ProvidesStep(e: Env, chain: Chain, items: seq<Sealable>, id: string, key: string)
    requires YieldsBytes(e) && items != [] && DistinctIds(items)
    ensures var n := |items| - 1;
            Provides(e, chain, items, id, key) <==>
              Provides(e, chain, items[..n], id, key)
              || (items[n].id == id && GivesKey(e, chain, items[n], key))
    ensures Provides(e, chain, items[..|items| - 1], id, key) ==> id != items[|items| - 1].id
  {
    hide UnsealItem, YieldsBytes;
    var n := |items| - 1;
    if k :| 0 <= k < n && items[..n][k].id == id && GivesKey(e, chain, items[..n][k], key) {
      assert items[k] == items[..n][k];
    }
    if k :| 0 <= k < n && items[k].id == id && GivesKey(e, chain, items[k], key) {
      assert items[k] == items[..n][k];
    }
  }

  /** A note sealed under an items key: it unseals wherever that key is found under the note's id for it. */
  ghost predicate SealedUnder(e: Env, i: Sealable, key: string, note: Note)
    requires YieldsBytes(e)
  {
    var found := UnsealItem(e, Chain(VERSION4, "", "", map[i.itemsKeyID := key]), i);
    found.Some? && found.value.item.note == Some(note)
  }

  lemma NoteDependsOnItsKey(e: Env, chain: Chain, i: Sealable, key: string)
    requires YieldsBytes(e) && IsNote(i) && chain.version == VERSION4
    requires i.itemsKeyID in chain.itemsKey && chain.itemsKey[i.itemsKeyID] == key
    ensures UnsealItem(e, chain, i) == UnsealItem(e, Chain(VERSION4, "", "", map[i.itemsKeyID := key]), i)
  {
    hide Parse, Vaults.Unseal, YieldsBytes, ContentKeys;
  }

  /** Without its items key a note cannot be read. */
  lemma NoKeyNoNote(e: Env, chain: Chain, i: Sealable)
    requires YieldsBytes(e) && IsNote(i) && chain.version == VERSION4 && i.itemsKeyID !in chain.itemsKey
    ensures UnsealItem(e, chain, i).None?
  {
    assert Hex.Decode("") == Some("");
    hide Parse, YieldsBytes, ContentKeys, ComputeAuth, Hex.Decode;
  }

  /** What sealing under a keychain makes is sealed under the items key of the note. */
  lemma SealingSealsUnder(e: Env, chain: Chain, i: Sealable, d: Draw)
    requires Lawful(e) && Fits(chain, i) && i.note.Some? && IsDraw(chain.version, d)
    requires chain.version == VERSION4 && i.itemsKeyID in chain.itemsKey
    ensures SealItem(e, chain, i, d).Some?
            && SealedUnder(e, SealItem(e, chain, i, d).value, chain.itemsKey[i.itemsKeyID], i.note.value)
  {
    hide SealItem, UnsealItem, Sealing, UsableKey;
    UnsealUndoesSeal(e, chain, i, d);
    NoteDependsOnItsKey(e, chain, SealItem(e, chain, i, d).value, chain.itemsKey[i.itemsKeyID]);
  }

  /** Notes are sealed under the items keys of the account, as far as the list has those. */
  ghost predicate NotesSealed(e: Env, chain: Chain, items: seq<Sealable>, notes: seq<Note>)
    requires YieldsBytes(e)
  {
    && |notes| == |items|
    && forall k, key :: 0 <= k < |items| && IsNote(items[k]) && Provides(e, chain, items, items[k].itemsKeyID, key)
                        ==> SealedUnder(e, items[k], key, notes[k])
  }

  /** Everything is read if and only if every items key unseals, every note's items key is in the list and every
      note's metadata parses; and then each note is the one that was sealed. */
  lemma ReadIffProvided(e: Env, chain: Chain, items: seq<Sealable>, notes: seq<Note>)
    requires YieldsBytes(e) && chain.version == VERSION4 && chain.itemsKey == map[]
    requires DistinctIds(items) && NotesSealed(e, chain, items, notes)
    ensures var after := FirstPass(e, chain, items);
            && (after.Some? <==> KeysUnseal(e, chain, items))
            && (after.Some? && AllReadable(e, after.value, items) <==>
                  && KeysUnseal(e, chain, items)
                  && forall k :: 0 <= k < |items| && IsNote(items[k]) ==>
                       (exists key :: Provides(e, chain, items, items[k].itemsKeyID, key))
                         && e.parsesMetadata(notes[k]))
            && (after.Some? && AllReadable(e, after.value, items) ==>
                  forall k :: 0 <= k < |items| && IsNote(items[k]) ==>
                    UnsealItem(e, after.value, items[k]).Some?
                      && UnsealItem(e, after.value, items[k]).value.item.note == Some(notes[k]))
  {
    hide UnsealItem, YieldsBytes, Provides, FirstPass, KeysUnseal, ReadsNote;
    FirstPassIff(e, chain, items);
    if KeysUnseal(e, chain, items) {
      FirstPassCollects(e, chain, items);
      var after := FirstPass(e, chain, items).value;
      forall k | 0 <= k < |items| && IsNote(items[k])
        ensures ReadsNote(e, after, items[k])
                <==> (exists key :: Provides(e, chain, items, items[k].itemsKeyID, key)) && e.parsesMetadata(notes[k])
        ensures ReadsNote(e, after, items[k]) ==>
                  UnsealItem(e, after, items[k]).Some?
                    && UnsealItem(e, after, items[k]).value.item.note == Some(notes[k])
      {
        var id := items[k].itemsKeyID;
        NoteIsFound(e, after, items[k]);
        if id in after.itemsKey {
          NoteDependsOnItsKey(e, after, items[k], after.itemsKey[id]);
          assert SealedUnder(e, items[k], after.itemsKey[id], notes[k]);
        } else {
          NoKeyNoNote(e, after, items[k]);
        }
      }
    }
  }

  // ---------------------------------------------------------------- What was sealed in the list

  /** A payload was sealed into an item under the keys of an account; of the item only the strings matter. */
  ghost predicate HoldsPayload(e: Env, account: Chain, i: Sealable, payload: string)
    requires YieldsBytes(e)
  {
    exists j, d :: FitsAny(account, j) && IsDraw(account.version, d) && IsSealed(e, account, i, j, d, payload)
  }

  ghost predicate IsSealed(e: Env, account: Chain, i: Sealable, j: Sealable, d: Draw, payload: string)
    requires YieldsBytes(e) && Sealing(j) && IsDraw(account.version, d)
  {
    var sealed := SealPayload(e, account, j, d, payload);
    && sealed.Some?
    && i.id == sealed.value.id && i.contentType == sealed.value.contentType && i.itemsKeyID == sealed.value.itemsKeyID
    && i.content == sealed.value.content && i.encryptedItemKey == sealed.value.encryptedItemKey
  }

  /** Opening looks at the strings of an item only. */
  lemma OpenDependsOn(e: Env, chain: Chain, i: Sealable, j: Sealable)
    requires YieldsBytes(e)
    requires j.id == i.id && j.content == i.content && j.contentType == i.contentType && j.itemsKeyID == i.itemsKeyID
    requires j.encryptedItemKey == i.encryptedItemKey
    ensures OpenItem(e, chain, i).Some? <==> OpenItem(e, chain, j).Some?
    ensures OpenItem(e, chain, i).Some? ==>
              && OpenItem(e, chain, i).value.1 == OpenItem(e, chain, j).value.1
              && OpenItem(e, chain, i).value.0.contentType == i.contentType
  {
    hide Parse, Vaults.Unseal, KeyKeys, ContentKeys, YieldsBytes;
  }

  lemma HeldIsOpened(e: Env, account: Chain, i: Sealable, payload: string)
    requires Lawful(e) && HoldsPayload(e, account, i, payload)
    ensures var found := OpenItem(e, account, i);
            found.Some? && found.value.1 == payload && found.value.0.contentType == i.contentType
  {
    hide OpenItem, SealPayload, UsableKey, Portable, IsDraw, YieldsBytes, IdealCiphers, InverseJson, Sealing;
    var j, d :| FitsAny(account, j) && IsDraw(account.version, d) && IsSealed(e, account, i, j, d, payload);
    OpenUndoesSeal(e, account, j, d, payload);
    OpenDependsOn(e, account, i, SealPayload(e, account, j, d, payload).value);
  }

  /** An items key gives exactly the key that was sealed in it, whatever has been collected already. */
  lemma HeldKeyIsGiven(e: Env, account: Chain, chain: Chain, i: Sealable, payload: string)
    requires Lawful(e) && i.contentType == ITEMS_KEY && HoldsPayload(e, account, i, payload)
    requires chain == account.(itemsKey := chain.itemsKey)
    ensures var found := UnsealItem(e, chain, i);
            && (found.Some? <==> e.unmarshalItemsKey(payload).Some?)
            && (found.Some? ==> found.value.itemsKey == e.unmarshalItemsKey(payload))
  {
    hide HoldsPayload, OpenItem, YieldsBytes, IdealCiphers, InverseJson;
    HeldIsOpened(e, account, i, payload);
    ItemsKeyIgnoresChain(e, account, chain, i);
  }

  lemma HeldNoteIsSealed(e: Env, account: Chain, i: Sealable, note: Note)
    requires Lawful(e) && IsNote(i) && HoldsPayload(e, account, i, e.marshalNote(note))
    requires account.version == VERSION4 && i.itemsKeyID in account.itemsKey
    ensures SealedUnder(e, i, account.itemsKey[i.itemsKeyID], note)
  {
    hide HoldsPayload, OpenItem, YieldsBytes, IdealCiphers;
    HeldIsOpened(e, account, i, e.marshalNote(note));
    NoteDependsOnItsKey(e, account, i, account.itemsKey[i.itemsKeyID]);
  }

  /** The list has an items key with this id. */
  predicate Retrieved(items: seq<Sealable>, id: string) {
    exists k :: 0 <= k < |items| && items[k].contentType == ITEMS_KEY && items[k].id == id
  }

  /** In every items key of the list a payload was sealed which, if it is read, holds the account's key of that id;
      and every note was sealed under the account. */
  ghost predicate ListOf(e: Env, account: Chain, items: seq<Sealable>, payloads: seq<string>, notes: seq<Note>)
    requires YieldsBytes(e)
  {
    && |payloads| == |notes| == |items|
    && (forall k :: 0 <= k < |items| && items[k].contentType == ITEMS_KEY ==>
          && HoldsPayload(e, account, items[k], payloads[k])
          && (e.unmarshalItemsKey(payloads[k]).Some? ==>
                items[k].id in account.itemsKey
                  && account.itemsKey[items[k].id] == e.unmarshalItemsKey(payloads[k]).value))
    && (forall k :: 0 <= k < |items| && IsNote(items[k]) ==>
          items[k].itemsKeyID in account.itemsKey && HoldsPayload(e, account, items[k], e.marshalNote(notes[k])))
  }

  ghost predicate PayloadsRead(e: Env, items: seq<Sealable>, payloads: seq<string>)
    requires |payloads| == |items|
  {
    forall k :: 0 <= k < |items| && items[k].contentType == ITEMS_KEY ==> e.unmarshalItemsKey(payloads[k]).Some?
  }

  lemma GivenBy(e: Env, account: Chain, items: seq<Sealable>, payloads: seq<string>, notes: seq<Note>, k: nat)
    requires Lawful(e) && ListOf(e, account, items, payloads, notes) && k < |items| && items[k].contentType == ITEMS_KEY
    ensures var found := UnsealItem(e, account.(itemsKey := map[]), items[k]);
            && (found.Some? <==> e.unmarshalItemsKey(payloads[k]).Some?)
            && (found.Some? ==>
                  && items[k].id in account.itemsKey
                  && found.value.itemsKey == Some(account.itemsKey[items[k].id]) == e.unmarshalItemsKey(payloads[k]))
  {
    hide HoldsPayload, UnsealItem, YieldsBytes, IdealCiphers, InverseJson;
    HeldKeyIsGiven(e, account, account.(itemsKey := map[]), items[k], payloads[k]);
  }

  /** What the list provides is the account's, and what it provides it has retrieved. */
  lemma ProvidedIsAccounts(e: Env, account: Chain, items: seq<Sealable>, payloads: seq<string>, notes: seq<Note>,
                           id: string)
    requires Lawful(e) && ListOf(e, account, items, payloads, notes)
    ensures forall key :: Provides(e, account.(itemsKey := map[]), items, id, key) ==>
              Retrieved(items, id) && id in account.itemsKey && account.itemsKey[id] == key
    ensures PayloadsRead(e, items, payloads) && Retrieved(items, id) ==>
              id in account.itemsKey && Provides(e, account.(itemsKey := map[]), items, id, account.itemsKey[id])
  {
    var chain := account.(itemsKey := map[]);
    hide UnsealItem, YieldsBytes, IdealCiphers, InverseJson, HoldsPayload;
    forall key | Provides(e, chain, items, id, key)
      ensures Retrieved(items, id) && id in account.itemsKey && account.itemsKey[id] == key
    {
      var k :| 0 <= k < |items| && items[k].id == id && GivesKey(e, chain, items[k], key);
      GivenBy(e, account, items, payloads, notes, k);
    }
    if PayloadsRead(e, items, payloads) && Retrieved(items, id) {
      var k :| 0 <= k < |items| && items[k].contentType == ITEMS_KEY && items[k].id == id;
      GivenBy(e, account, items, payloads, notes, k);
      assert GivesKey(e, chain, items[k], account.itemsKey[id]);
    }
  }

  lemma ListIsSealed(e: Env, account: Chain, items: seq<Sealable>, payloads: seq<string>, notes: seq<Note>)
    requires Lawful(e) && account.version == VERSION4 && ListOf(e, account, items, payloads, notes)
    ensures NotesSealed(e, account.(itemsKey := map[]), items, notes)
    ensures KeysUnseal(e, account.(itemsKey := map[]), items) <==> PayloadsRead(e, items, payloads)
  {
    var chain := account.(itemsKey := map[]);
    hide UnsealItem, YieldsBytes, IdealCiphers, InverseJson, HoldsPayload, Provides, SealedUnder;
    forall k, key | 0 <= k < |items| && IsNote(items[k]) && Provides(e, chain, items, items[k].itemsKeyID, key)
      ensures SealedUnder(e, items[k], key, notes[k])
    {
      ProvidedIsAccounts(e, account, items, payloads, notes, items[k].itemsKeyID);
      HeldNoteIsSealed(e, account, items[k], notes[k]);
    }
    forall k | 0 <= k < |items| && items[k].contentType == ITEMS_KEY
      ensures UnsealItem(e, chain, items[k]).Some? <==> e.unmarshalItemsKey(payloads[k]).Some?
      ensures UnsealItem(e, chain, items[k]).Some? ==> UnsealItem(e, chain, items[k]).value.itemsKey.Some?
    {
      GivenBy(e, account, items, payloads, notes, k);
    }
  }

  /** Two passes suffice: for a list of items with distinct ids, in any order, sealed under one account, and a keychain
      that has the account's master key and no items keys yet. The first pass gets through if and only if the payload
      of every items key holds a key, and then collects exactly the account's keys of the ids in the list.
      Everything is read if and only if besides every note's items key is in the list and its metadata parses; and
      then each note is the one that was sealed. */
  lemma TwoPassesRead(e: Env, account: Chain, items: seq<Sealable>, payloads: seq<string>, notes: seq<Note>)
    requires Lawful(e) && account.version == VERSION4 && DistinctIds(items)
    requires ListOf(e, account, items, payloads, notes)
    ensures var after := FirstPass(e, account.(itemsKey := map[]), items);
            && (after.Some? <==> PayloadsRead(e, items, payloads))
            && (after.Some? ==>
                  forall id :: && (id in after.value.itemsKey <==> Retrieved(items, id))
                               && (id in after.value.itemsKey ==>
                                     id in account.itemsKey && after.value.itemsKey[id] == account.itemsKey[id]))
            && (after.Some? && AllReadable(e, after.value, items) <==>
                  && PayloadsRead(e, items, payloads)
                  && forall k :: 0 <= k < |items| && IsNote(items[k]) ==>
                       Retrieved(items, items[k].itemsKeyID) && e.parsesMetadata(notes[k]))
            && (after.Some? && AllReadable(e, after.value, items) ==>
                  forall k :: 0 <= k < |items| && IsNote(items[k]) ==>
                    && UnsealItem(e, after.value, items[k]).Some?
                    && UnsealItem(e, after.value, items[k]).value.item.note == Some(notes[k]))
  {
    var chain := account.(itemsKey := map[]);
    hide UnsealItem, YieldsBytes, IdealCiphers, InverseJson, Provides, FirstPass, KeysUnseal, ListOf, ReadsNote,
      Retrieved, PayloadsRead;
    ListIsSealed(e, account, items, payloads, notes);
    ReadIffProvided(e, chain, items, notes);
    if KeysUnseal(e, chain, items) {
      FirstPassCollects(e, chain, items);
      forall id
        ensures (exists key :: Provides(e, chain, items, id, key)) <==> Retrieved(items, id)
        ensures forall key :: Provides(e, chain, items, id, key) ==>
                  id in account.itemsKey && account.itemsKey[id] == key
      {
        ProvidedIsAccounts(e, account, items, payloads, notes, id);
      }
    }
  }

  lemma SealedHolds(e: Env, account: Chain, j: Sealable, d: Draw, payload: string)
    requires Lawful(e) && FitsAny(account, j) && IsDraw(account.version, d)
    ensures SealPayload(e, account, j, d, payload).Some?
    ensures var i := SealPayload(e, account, j, d, payload).value;
            && HoldsPayload(e, account, i, payload)
            && i.id == j.id && i.contentType == j.contentType && i.itemsKeyID == j.itemsKeyID
  {
    hide SealPayload, OpenItem, UsableKey, Portable, IsDraw, YieldsBytes, IdealCiphers, InverseJson, Sealing;
    OpenUndoesSeal(e, account, j, d, payload);
    assert IsSealed(e, account, SealPayload(e, account, j, d, payload).value, j, d, payload);
  }

  /** A note is read although the items key that it was sealed under comes after it in the list. */
  lemma NoteBeforeItsKey(e: Env, account: Chain, n: Sealable, k: Sealable, d: Draw, note: Note, payload: string)
    returns (items: seq<Sealable>, payloads: seq<string>, notes: seq<Note>)
    requires Lawful(e) && account.version == VERSION4 && FitsAny(account, n) && FitsAny(account, k)
             && IsDraw(VERSION4, d)
    requires IsNote(n) && k.contentType == ITEMS_KEY && n.id != k.id == n.itemsKeyID
    requires k.id in account.itemsKey && e.unmarshalItemsKey(payload) == Some(account.itemsKey[k.id])
    requires e.parsesMetadata(note)
    ensures |items| == |notes| == |payloads| == 2 && items[0].id == n.id && items[1].id == k.id
    ensures DistinctIds(items) && ListOf(e, account, items, payloads, notes)
    ensures IsNote(items[0]) && items[1].contentType == ITEMS_KEY && notes[0] == note && payloads[1] == payload
    ensures var after := FirstPass(e, account.(itemsKey := map[]), items);
            after.Some? && AllReadable(e, after.value, items)
  {
    hide HoldsPayload, SealPayload, UsableKey, Portable, IsDraw, YieldsBytes, IdealCiphers, InverseJson, Sealing;
    SealedHolds(e, account, n, d, e.marshalNote(note));
    SealedHolds(e, account, k, d, payload);
    items := [SealPayload(e, account, n, d, e.marshalNote(note)).value, SealPayload(e, account, k, d, payload).value];
    payloads, notes := ["", payload], [note, note];
    assert items[1].contentType == ITEMS_KEY && items[1].id == k.id;
    assert Retrieved(items, k.id) && PayloadsRead(e, items, payloads) && ListOf(e, account, items, payloads, notes);
    hide ListOf, FirstPass, UnsealItem, ReadsNote, FitsAny;
    TwoPassesRead(e, account, items, payloads, notes);
  }

  /** Such a list exists. */
  lemma SomeListIsRead() returns (e: Env, account: Chain, items: seq<Sealable>, payloads: seq<string>, notes: seq<Note>)
    ensures Lawful(e) && account.version == VERSION4 && DistinctIds(items) && ListOf(e, account, items, payloads, notes)
    ensures |items| == 2 && IsNote(items[0]) && items[1].contentType == ITEMS_KEY
    ensures var after := FirstPass(e, account.(itemsKey := map[]), items);
            after.Some? && AllReadable(e, after.value, items)
  {
    e := Environments.TRANSPARENT;
    Environments.TransparentIsLawful();
    var bytes := seq(32, _ => 'k');
    var d, note := Draw(bytes, bytes, bytes), Note("title", "text", "", "", "", "");
    account := Chain(VERSION4, Hex.Encode(bytes), "", map["key id" := Hex.Encode(bytes)]);
    var n := Sealable("note id", "", NOTE, "key id", "", VERSION4, Some(NO_AUTH), Some(note), None, None);
    var k := Sealable("key id", "", ITEMS_KEY, "", "", VERSION4, Some(NO_AUTH), None, None, None);
    FitsSome(account, n, bytes);
    FitsSome(account, k, bytes);
    assert e.unmarshalItemsKey(Hex.Encode(bytes)) == Some(Hex.Encode(bytes)) && e.parsesMetadata(note);
    assert IsDraw(VERSION4, d) && n.id != k.id;
    hide Lawful, FitsAny, ListOf, FirstPass, AllReadable, DistinctIds, IsDraw;
    items, payloads, notes := NoteBeforeItsKey(e, account, n, k, d, note, Hex.Encode(bytes));
  }

  lemma FitsSome(account: Chain, i: Sealable, bytes: string)
    requires |bytes| == 32 && forall j :: 0 <= j < 32 ==> bytes[j] == 'k'
    requires account == Chain(VERSION4, Hex.Encode(bytes), "", map["key id" := Hex.Encode(bytes)])
    requires i.version == VERSION4 && i.authParams == Some(NO_AUTH) && i.key == i.contentVault == None
    requires i.contentType == ITEMS_KEY || i.itemsKeyID == "key id"
    requires i.id == "note id" || i.id == "key id"
    ensures FitsAny(account, i)
  {
    hide Hex.Encode, Hex.Decode;
    Hex.RoundTrip(bytes);
  }
}
