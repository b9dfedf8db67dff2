// The parts of a record through an export and an import: its tags, its
// attributes, its secret fields and its second factor.
module KeePassParts {
  import opened Wrappers
  import opened Bytes
  import opened Csv
  import opened Substring
  import opened Text
  import opened MetaBlock
  import opened MetaRoundTrip
  import opened KeePass
  import opened KeePassImport
  import Otpauth
  import OtpauthRoundTrip

  predicate PlainTag(tag: string) {
    Tidy(tag) && tag != "Root" && forall i :: 0 <= i < |tag| ==> tag[i] != '/'
  }

  // ----- tags -----

  lemma {:induction false} TagsComeBack(tags: seq<string>)
    requires tags != [] && forall i :: 0 <= i < |tags| ==> PlainTag(tags[i])
    ensures SplitTags(JoinWith(tags, "/")) == tags
    decreases |tags|
  {
    hide IndexOf;
    hide Trim;
    assert PlainTag(tags[0]);
    if |tags| == 1 {
      FirstSeparator(tags[0], '/', "");
      assert tags == [tags[0]];
    } else {
      var rest := JoinWith(tags[1..], "/");
      FirstSeparator(tags[0], '/', rest);
      var s := tags[0] + "/" + rest;
      assert JoinWith(tags, "/") == s && s[..|tags[0]|] == tags[0] && s[|tags[0]| + 1..] == rest;
      TagsComeBack(tags[1..]);
    }
  }

  ghost predicate PlainTags(tags: seq<string>) {
    forall i :: 0 <= i < |tags| ==> PlainTag(tags[i])
  }

  lemma TagIsPlain(part: string)
    requires forall i :: 0 <= i < |part| ==> part[i] != '/'
    ensures PlainTags(Tag(part))
  {
    hide Trim;
    TrimmedIsTidy(part);
  }

  lemma NoSlashBefore(s: string, n: nat)
    requires n <= |s| && forall k :: 0 <= k < n ==> !HitAt(s, "/", k)
    ensures forall i :: 0 <= i < n ==> s[..n][i] != '/'
  {
    forall i | 0 <= i < n ensures s[..n][i] != '/' {
      assert s[i..i + 1] == [s[i]];
      assert !HitAt(s, "/", i);
    }
  }

  // Whatever the group column holds, only plain tags are read from it.
  lemma {:induction false} SplitTagsArePlain(group: string)
    ensures PlainTags(SplitTags(group))
    decreases |group|
  {
    hide IndexOf;
    hide Tag;
    hide HitAt;
    hide PlainTag;
    var slash := IndexOf(group, "/", 0);
    IndexOfIsFirst(group, "/", 0, slash);
    if slash.None? {
      NoSlashBefore(group, |group|);
      assert group[..|group|] == group;
      TagIsPlain(group);
    } else {
      NoSlashBefore(group, slash.value);
      TagIsPlain(group[..slash.value]);
      SplitTagsArePlain(group[slash.value + 1..]);
    }
  }

  // A record's tags come back exactly when each of them is plain.
  lemma GroupComesBack(r: Record)
    ensures SplitTags(Group(r)) == r.tags <==> PlainTags(r.tags)
  {
    hide IndexOf;
    hide Trim;
    hide PlainTag;
    SplitTagsArePlain(Group(r));
    if PlainTags(r.tags) {
      TrimTidy("Root");
      if r.tags == [] {
        FirstSeparator("Root", '/', "");
      } else {
        var rest := JoinWith(r.tags, "/");
        FirstSeparator("Root", '/', rest);
        var s := "Root" + "/" + rest;
        assert Group(r) == s && s[..4] == "Root" && s[5..] == rest;
        TagsComeBack(r.tags);
      }
    }
  }

  // ----- looking things up -----

  predicate DistinctNames<V>(pairs: seq<(string, V)>) {
    forall i, j :: 0 <= i < j < |pairs| ==> pairs[i].0 != pairs[j].0
  }

  lemma {:induction false} LookupAppend<V>(pairs: seq<(string, V)>, last: (string, V), name: string)
    ensures Lookup(pairs + [last], name)
         == OrElse(Lookup(pairs, name), if last.0 == name then Some(last.1) else None)
  {
    if pairs != [] {
      assert (pairs + [last])[1..] == pairs[1..] + [last];
      LookupAppend(pairs[1..], last, name);
    } else {
      assert pairs + [last] == [last];
    }
  }

  lemma {:induction false} LookupSet<V>(pairs: seq<(string, V)>, key: string, value: V, name: string)
    ensures Lookup(SetPair(pairs, key, value), name) == if name == key then Some(value) else Lookup(pairs, name)
  {
    if pairs != [] && pairs[0].0 != key {
      LookupSet(pairs[1..], key, value, name);
    }
  }

  lemma {:induction false} LookupMissing<V>(pairs: seq<(string, V)>, name: string)
    ensures Lookup(pairs, name).None? <==> forall i :: 0 <= i < |pairs| ==> pairs[i].0 != name
  {
    if pairs != [] {
      LookupMissing(pairs[1..], name);
      assert forall i :: 0 < i < |pairs| ==> pairs[i] == pairs[1..][i - 1];
    }
  }

  lemma {:induction false} LookupIsThere<V>(pairs: seq<(string, V)>, name: string)
    ensures var v := Lookup(pairs, name); v.Some? ==> (name, v.value) in pairs
  {
    if pairs != [] && pairs[0].0 != name {
      LookupIsThere(pairs[1..], name);
      assert forall p :: p in pairs[1..] ==> p in pairs;
    }
  }

  lemma {:induction false} LookupFinds<V>(pairs: seq<(string, V)>, p: (string, V))
    requires DistinctNames(pairs) && p in pairs
    ensures Lookup(pairs, p.0) == Some(p.1)
  {
    if p == pairs[0] {
    } else {
      assert p in pairs[1..];
      LookupFinds(pairs[1..], p);
    }
  }

  // Setting an entry never makes two of one name.
  lemma {:induction false} SetKeepsDistinct<V>(pairs: seq<(string, V)>, name: string, value: V)
    requires DistinctNames(pairs)
    ensures DistinctNames(SetPair(pairs, name, value))
  {
    if pairs != [] && pairs[0].0 != name {
      var now := SetPair(pairs[1..], name, value);
      SetKeepsDistinct(pairs[1..], name, value);
      forall i | 0 <= i < |now| ensures now[i].0 != pairs[0].0 {
        LookupSet(pairs[1..], name, value, pairs[0].0);
        LookupMissing(pairs[1..], pairs[0].0);
        LookupMissing(now, pairs[0].0);
      }
    }
  }

  // Where names are distinct, the same answers mean the same entries.
  lemma SameAnswersSameEntries<V>(a: seq<(string, V)>, b: seq<(string, V)>, p: (string, V))
    requires DistinctNames(a) && DistinctNames(b) && Lookup(a, p.0) == Lookup(b, p.0)
    ensures p in a <==> p in b
  {
    hide DistinctNames;
    hide Lookup;
    LookupIsThere(a, p.0);
    LookupIsThere(b, p.0);
    if p in a {
      LookupFinds(a, p);
    }
    if p in b {
      LookupFinds(b, p);
    }
  }

  lemma {:induction false} SetAttrsKeepDistinct(pairs: Pairs, more: Pairs)
    requires DistinctNames(pairs)
    ensures DistinctNames(SetAttrs(pairs, more))
    decreases |more|
  {
    hide Trim;
    hide DistinctNames;
    if more != [] {
      var rest, last := more[..|more| - 1], more[|more| - 1];
      SetAttrsKeepDistinct(pairs, rest);
      SetKeepsDistinct(SetAttrs(pairs, rest), last.0, Trim(last.1));
    }
  }

  lemma {:induction false} SetSecretsKeepDistinct(fields: Fields, more: Pairs)
    requires DistinctNames(fields)
    ensures DistinctNames(SetSecrets(fields, more))
    decreases |more|
  {
    hide Utf8;
    hide DistinctNames;
    if more != [] {
      var rest, last := more[..|more| - 1], more[|more| - 1];
      SetSecretsKeepDistinct(fields, rest);
      SetKeepsDistinct(SetSecrets(fields, rest), last.0, Utf8(last.1));
    }
  }

  // No row, whatever it holds, gives a record two attributes or two fields of
  // one name.
  lemma ImportedNamesAreDistinct(header: Cells, cells: Cells)
    ensures var b := Rebuild(header, cells).0; DistinctNames(b.attributes) && DistinctNames(b.fields)
  {
    hide ReadColumns;
    hide ReadTotp;
    hide SetPair;
    hide DistinctNames;
    hide Trim;
    hide LoginTitle;
    hide SplitTags;
    var c := ReadColumns(header, cells);
    NothingIsDistinct();
    BaseIsDistinct(c.meta, c.title, c.username, c.password, c.url, c.notes);
    var base := Base(c.meta, c.title, c.username, c.password, c.url, c.notes);
    SetAttrsKeepDistinct(base.attributes, c.meta.attributes);
    SetSecretsKeepDistinct(base.fields, c.meta.secrets);
    var read := ReadTotp(FromColumns(c), c.totp);
    if read.Some? && read.value.Ok? {
      SetKeepsDistinct(FromColumns(c).fields, "totp", read.value.value.secret);
    }
  }

  lemma NothingIsDistinct()
    ensures DistinctNames<string>([]) && DistinctNames<seq<byte>>([])
  {
  }

  lemma BaseIsDistinct(meta: NoteMeta, title: string, username: string, password: string, url: string, notes: string)
    ensures var b := Base(meta, title, username, password, url, notes);
            DistinctNames(b.attributes) && DistinctNames(b.fields)
  {
    hide Trim;
    hide Utf8;
    hide HostOf;
    SetKeepsDistinct([], "username", Trim(username));
    SetKeepsDistinct(SetAttrIf([], "username", username), "url", Trim(url));
  }

  // ----- attributes -----

  // What an import stores of a value.
  function Stored(value: string): Option<string> {
    if Trim(value) == "" then None else Some(Trim(value))
  }

  function StoredIf(value: Option<string>): Option<string> {
    match value case None => None case Some(v) => Stored(v)
  }

  lemma LookupSetAttr(base: Pairs, key: string, value: string, name: string)
    ensures Lookup(SetAttrIf(base, key, value), name)
         == OrElse(if name == key then Stored(value) else None, Lookup(base, name))
  {
    hide Trim;
    LookupSet(base, key, Trim(value), name);
  }

  lemma {:induction false} LookupSetAttrs(base: Pairs, more: Pairs, name: string)
    requires DistinctNames(more)
    ensures Lookup(SetAttrs(base, more), name) == OrElse(StoredIf(Lookup(more, name)), Lookup(base, name))
    decreases |more|
  {
    hide Stored;
    hide SetAttrIf;
    if more != [] {
      var rest, last := more[..|more| - 1], more[|more| - 1];
      LookupSetAttrs(base, rest, name);
      LookupSetAttr(SetAttrs(base, rest), last.0, last.1, name);
      LookupAppend(rest, last, name);
      LookupMissing(rest, last.0);
      assert more == rest + [last];
    }
  }

  predicate Reserved(name: string) {
    name == "username" || name == "url" || name == "account"
  }

  lemma {:induction false} MetaAttributesAre(attributes: Pairs)
    requires DistinctNames(attributes)
    ensures DistinctNames(MetaAttributes(attributes))
    ensures forall i :: 0 <= i < |MetaAttributes(attributes)| ==> MetaAttributes(attributes)[i] in attributes
    ensures forall name :: Lookup(MetaAttributes(attributes), name) == if Reserved(name) then None else Lookup(attributes, name)
    decreases |attributes|
  {
    if attributes != [] {
      var n := |attributes| - 1;
      var rest, last := attributes[..n], attributes[n];
      MetaAttributesAre(rest);
      assert attributes == rest + [last];
      var kept := MetaAttributes(rest);
      forall i | 0 <= i < |kept| ensures kept[i].0 != last.0 && kept[i] in attributes {
        assert kept[i] in rest;
      }
      forall name ensures Lookup(MetaAttributes(attributes), name) == if Reserved(name) then None else Lookup(attributes, name) {
        LookupAppend(rest, last, name);
        LookupAppend(kept, last, name);
        assert kept + [] == kept;
      }
    }
  }

  // The two columns an import turns into attributes.
  function ColumnAttributes(username: string, url: string): Pairs {
    SetAttrIf(SetAttrIf([], "username", username), "url", url)
  }

  // The attributes an import makes of a record's cells.
  function AttributesBack(r: Record): Pairs {
    SetAttrs(ColumnAttributes(Username(r), OwnText(Lookup(r.attributes, "url"))), MetaAttributes(r.attributes))
  }

  // What it answers under a name.
  function AttributeBack(r: Record, name: string): Option<string> {
    if name == "username" then Stored(Username(r))
    else if name == "url" then Stored(OwnText(Lookup(r.attributes, "url")))
    else if name == "account" then None
    else StoredIf(Lookup(r.attributes, name))
  }

  lemma AttributeBackIs(r: Record, name: string)
    requires DistinctNames(r.attributes)
    ensures Lookup(AttributesBack(r), name) == AttributeBack(r, name)
  {
    hide Stored;
    hide Username;
    hide SetAttrIf;
    hide SetAttrs;
    hide MetaAttributes;
    var username, url := Username(r), OwnText(Lookup(r.attributes, "url"));
    MetaAttributesAre(r.attributes);
    LookupSetAttrs(ColumnAttributes(username, url), MetaAttributes(r.attributes), name);
    LookupSetAttr(SetAttrIf([], "username", username), "url", url, name);
    LookupSetAttr([], "username", username, name);
  }

  ghost predicate PortableAttributes(attributes: Pairs) {
    forall p :: p in attributes ==> p.0 != "account" && Tidy(p.1)
  }

  ghost predicate SameAttributes(r: Record) {
    forall name :: Lookup(AttributesBack(r), name) == Lookup(r.attributes, name)
  }

  lemma StoredIsTidy(value: string)
    ensures Stored(value).Some? ==> Tidy(Stored(value).value)
    ensures Tidy(value) ==> Stored(value) == Some(value)
  {
    hide Trim;
    TrimmedIsTidy(value);
  }

  lemma NothingStored()
    ensures Stored("") == None
  {
  }

  // Every attribute name answers as before exactly when no attribute is called
  // `account` and none is blank or has white space around it.
  lemma AttributesComeBack(r: Record)
    requires DistinctNames(r.attributes)
    ensures SameAttributes(r) <==> PortableAttributes(r.attributes)
  {
    hide Stored;
    hide Tidy;
    hide Lookup;
    hide AttributesBack;
    if SameAttributes(r) {
      forall p | p in r.attributes ensures p.0 != "account" && Tidy(p.1) {
        LookupFinds(r.attributes, p);
        AttributeBackIs(r, p.0);
        StoredIsTidy(Username(r));
        StoredIsTidy(p.1);
      }
    }
    if PortableAttributes(r.attributes) {
      forall name ensures Lookup(AttributesBack(r), name) == Lookup(r.attributes, name) {
        AttributeStays(r, name);
      }
    }
  }

  lemma AttributeStays(r: Record, name: string)
    requires DistinctNames(r.attributes) && PortableAttributes(r.attributes)
    ensures Lookup(AttributesBack(r), name) == Lookup(r.attributes, name)
  {
    hide Stored;
    hide Tidy;
    hide Lookup;
    hide AttributesBack;
    AttributeBackIs(r, name);
    LookupIsThere(r.attributes, name);
    LookupIsThere(r.attributes, "account");
    NothingStored();
    if Lookup(r.attributes, name).Some? {
      StoredIsTidy(Lookup(r.attributes, name).value);
    }
  }

  // ----- secret fields -----

  // What an import stores of a printed secret.
  function SecretIf(text: Option<string>): Option<seq<byte>> {
    if text.Some? && text.value != "" then Some(Utf8(text.value)) else None
  }

  lemma LookupSetSecret(base: Fields, key: string, value: string, name: string)
    ensures Lookup(SetSecretIf(base, key, value), name)
         == OrElse(if name == key then SecretIf(Some(value)) else None, Lookup(base, name))
  {
    hide Utf8;
    LookupSet(base, key, Utf8(value), name);
  }

  lemma {:induction false} LookupSetSecrets(base: Fields, more: Pairs, name: string)
    requires DistinctNames(more)
    ensures Lookup(SetSecrets(base, more), name) == OrElse(SecretIf(Lookup(more, name)), Lookup(base, name))
    decreases |more|
  {
    hide Utf8;
    hide SetSecretIf;
    if more != [] {
      var rest, last := more[..|more| - 1], more[|more| - 1];
      LookupSetSecrets(base, rest, name);
      LookupSetSecret(SetSecrets(base, rest), last.0, last.1, name);
      LookupAppend(rest, last, name);
      LookupMissing(rest, last.0);
      assert more == rest + [last];
    }
  }

  // What the block shows under a name.
  function Shown(fields: Fields, primary: Option<(string, seq<byte>)>, name: string): Option<string> {
    if IsPrimary(primary, name) || name == "totp" then None else Exposed(Lookup(fields, name))
  }

  ghost predicate SecretsAre(pairs: Pairs, fields: Fields, primary: Option<(string, seq<byte>)>) {
    && DistinctNames(pairs)
    && (forall name :: Lookup(pairs, name) == Shown(fields, primary, name))
  }

  lemma {:induction false} MetaSecretsAre(fields: Fields, primary: Option<(string, seq<byte>)>)
    requires DistinctNames(fields)
    ensures SecretsAre(MetaSecrets(fields, primary), fields, primary)
    decreases |fields|
  {
    hide FromUtf8;
    if fields != [] {
      var rest, last := fields[..|fields| - 1], fields[|fields| - 1];
      assert fields == rest + [last];
      MetaSecretsAre(rest, primary);
      OneMoreSecret(rest, last, primary);
    }
  }

  lemma OneMoreSecret(rest: Fields, last: (string, seq<byte>), primary: Option<(string, seq<byte>)>)
    requires DistinctNames(rest + [last]) && SecretsAre(MetaSecrets(rest, primary), rest, primary)
    ensures SecretsAre(MetaSecrets(rest + [last], primary), rest + [last], primary)
  {
    hide FromUtf8;
    hide IsPrimary;
    hide Lookup;
    hide MetaSecrets;
    var fields, kept, now := rest + [last], MetaSecrets(rest, primary), MetaSecrets(rest + [last], primary);
    MetaSecretsGrow(rest, last, primary);
    LastNameIsNew(rest, last);
    LookupMissing(kept, last.0);
    forall name ensures Lookup(now, name) == Shown(fields, primary, name) {
      LookupAppend(rest, last, name);
      if FromUtf8(last.1).Some? {
        LookupAppend(kept, (last.0, FromUtf8(last.1).value), name);
      }
    }
  }

  lemma MetaSecretsGrow(rest: Fields, last: (string, seq<byte>), primary: Option<(string, seq<byte>)>)
    ensures MetaSecrets(rest + [last], primary)
         == if !IsPrimary(primary, last.0) && last.0 != "totp" && FromUtf8(last.1).Some?
            then MetaSecrets(rest, primary) + [(last.0, FromUtf8(last.1).value)]
            else MetaSecrets(rest, primary)
  {
    hide FromUtf8;
    hide IsPrimary;
    assert (rest + [last])[..|rest|] == rest;
    assert MetaSecrets(rest, primary) + [] == MetaSecrets(rest, primary);
  }

  lemma LastNameIsNew(rest: Fields, last: (string, seq<byte>))
    requires DistinctNames(rest + [last])
    ensures Lookup(rest, last.0).None?
  {
    var fields := rest + [last];
    forall i | 0 <= i < |rest| ensures rest[i].0 != last.0 {
      assert fields[i] == rest[i] && fields[|rest|] == last;
    }
    LookupMissing(rest, last.0);
  }

  // The fields an import makes of a record's cells, but for the second factor.
  function FieldsBack(r: Record): Fields {
    SetSecrets(SetSecretIf([], PrimaryFieldFor(r.kind), PasswordText(r)), MetaSecrets(r.fields, Primary(r)))
  }

  // A secret that can be printed: some text.
  predicate Readable(secret: seq<byte>) {
    secret != [] && FromUtf8(secret).Some?
  }

  // What it answers under a name.
  function FieldBack(r: Record, name: string): Option<seq<byte>> {
    var primary, own := Primary(r), Lookup(r.fields, name);
    if !IsPrimary(primary, name) && name != "totp" && own.Some? && Readable(own.value) then own
    else if name == PrimaryFieldFor(r.kind) && primary.Some? && Readable(primary.value.1) then Some(primary.value.1)
    else None
  }

  lemma ReadableText(secret: seq<byte>)
    ensures var text := FromUtf8(secret);
            && (text.Some? ==> Utf8(text.value) == secret)
            && (Readable(secret) <==> text.Some? && text.value != "")
  {
    hide FromUtf8;
    var text := FromUtf8(secret);
    if text.Some? {
      FromUtf8Exactly(secret, text.value);
      TextHasBytes(text.value);
    }
  }

  lemma TextHasBytes(s: string)
    ensures Utf8(s) == [] <==> s == ""
  {
  }

  lemma FieldBackIs(r: Record, name: string)
    requires DistinctNames(r.fields)
    ensures Lookup(FieldsBack(r), name) == FieldBack(r, name)
  {
    hide FromUtf8;
    hide Utf8;
    hide Readable;
    hide SetSecrets;
    hide SetSecretIf;
    hide MetaSecrets;
    hide Primary;
    hide PrimaryFieldFor;
    var primary, own := Primary(r), Lookup(r.fields, name);
    MetaSecretsAre(r.fields, primary);
    LookupSetSecrets(SetSecretIf([], PrimaryFieldFor(r.kind), PasswordText(r)), MetaSecrets(r.fields, primary), name);
    LookupSetSecret([], PrimaryFieldFor(r.kind), PasswordText(r), name);
    if own.Some? {
      ReadableText(own.value);
    }
    if primary.Some? {
      ReadableText(primary.value.1);
    }
  }

  // ----- second factors -----

  // A second factor that can be read from its address.
  predicate Enrolled(r: Record) {
    var secret := Lookup(r.fields, "totp");
    secret.Some? && secret.value != [] && r.totp.Some? && TotpFits(r.totp.value)
  }

  function TotpRead(r: Record): Option<Result<Otpauth.Enrolment, Otpauth.OtpauthError>> {
    match (r.totp, Lookup(r.fields, "totp"))
    case (Some(config), Some(secret)) => Some(OtpauthRoundTrip.Outcome(config, secret, OwnText(r.title), Username(r)))
    case _ => None
  }

  // What an import reads from a record's own TOTP cell, whatever it made of the
  // other columns.
  lemma TotpCellReads(r: Record, b: Rebuilt)
    ensures ReadTotp(b, TotpCell(r)) == TotpRead(r)
  {
    hide Trim;
    hide Username;
    hide Otpauth.Rendered;
    hide Otpauth.Parsed;
    hide OtpauthRoundTrip.Outcome;
    var secret := Lookup(r.fields, "totp");
    if r.totp.Some? && secret.Some? {
      OtpauthRoundTrip.RenderedIsTidy(r.totp.value, secret.value, OwnText(r.title), Username(r));
      OtpauthRoundTrip.ParseUndoesRender(r.totp.value, secret.value, OwnText(r.title), Username(r));
    } else {
      EmptyIsBlank();
    }
  }

  lemma EmptyIsBlank()
    ensures Trim("") == ""
  {
  }

  function ConfigBack(r: Record): Otpauth.TotpConfig
    requires r.totp.Some?
  {
    OtpauthRoundTrip.Returned(r.totp.value, OwnText(r.title), Username(r))
  }

  // A second factor comes back with its seed exactly when it can be read.
  lemma TotpComesBack(r: Record, b: Rebuilt)
    ensures var (now, warning) := Attached(b, TotpCell(r));
            now == if Enrolled(r)
                   then b.(fields := SetPair(b.fields, "totp", Lookup(r.fields, "totp").value), totp := Some(ConfigBack(r)))
                   else b
    ensures Attached(b, TotpCell(r)).1.Some? <==> r.totp.Some? && Lookup(r.fields, "totp").Some? && !Enrolled(r)
  {
    hide ReadTotp;
    hide TotpCell;
    hide Lookup;
    hide Username;
    hide OtpauthRoundTrip.Returned;
    TotpCellReads(r, b);
  }

  // ----- all fields together -----

  function AllFieldsBack(r: Record): Fields {
    if Enrolled(r) then SetPair(FieldsBack(r), "totp", Lookup(r.fields, "totp").value) else FieldsBack(r)
  }

  ghost predicate SameFields(r: Record) {
    forall name :: Lookup(AllFieldsBack(r), name) == Lookup(r.fields, name)
  }

  // Every field but the seed can be printed, the seed can be read back, and
  // nothing stands in the Password column but the field that belongs there.
  ghost predicate PortableFields(r: Record) {
    && (forall f :: f in r.fields && f.0 != "totp" ==> Readable(f.1))
    && (Lookup(r.fields, "totp").Some? ==> Enrolled(r))
    && (|| r.fields == []
        || Lookup(r.fields, PrimaryFieldFor(r.kind)).Some?
        || (r.fields[0].0 == "totp" && FromUtf8(r.fields[0].1).None?))
  }

  lemma PrimaryIsNoTotp(kind: Kind)
    ensures PrimaryFieldFor(kind) != "totp"
  {
    assert PrimaryFieldFor(kind)[0] != 't';
  }

  lemma AllFieldsBackAre(r: Record, name: string)
    requires DistinctNames(r.fields)
    ensures Lookup(AllFieldsBack(r), name)
         == if name == "totp" then (if Enrolled(r) then Lookup(r.fields, "totp") else None) else FieldBack(r, name)
  {
    hide FieldsBack;
    hide PrimaryFieldFor;
    hide Readable;
    hide TotpFits;
    PrimaryIsNoTotp(r.kind);
    FieldBackIs(r, name);
    if Enrolled(r) {
      LookupSet(FieldsBack(r), "totp", Lookup(r.fields, "totp").value, name);
    }
  }

  lemma FieldStays(r: Record, name: string)
    requires DistinctNames(r.fields) && PortableFields(r)
    ensures Lookup(AllFieldsBack(r), name) == Lookup(r.fields, name)
  {
    hide AllFieldsBack;
    hide FromUtf8;
    hide PrimaryFieldFor;
    hide Enrolled;
    hide Lookup;
    AllFieldsBackAre(r, name);
    LookupIsThere(r.fields, name);
    LookupIsThere(r.fields, PrimaryFieldFor(r.kind));
    if r.fields != [] {
      LookupFinds(r.fields, r.fields[0]);
    }
  }

  lemma FieldsWerePortable(r: Record)
    requires DistinctNames(r.fields) && SameFields(r)
    ensures PortableFields(r)
  {
    hide AllFieldsBack;
    hide FromUtf8;
    hide PrimaryFieldFor;
    hide TotpFits;
    hide Lookup;
    var column := PrimaryFieldFor(r.kind);
    AllFieldsBackAre(r, "totp");
    forall f | f in r.fields && f.0 != "totp" ensures Readable(f.1) {
      LookupFinds(r.fields, f);
      AllFieldsBackAre(r, f.0);
    }
    if r.fields != [] {
      AllFieldsBackAre(r, column);
      AllFieldsBackAre(r, r.fields[0].0);
      LookupFinds(r.fields, r.fields[0]);
      PrimaryIsNoTotp(r.kind);
    }
  }

  // Every field name answers as before exactly when the fields are portable.
  lemma FieldsComeBack(r: Record)
    requires DistinctNames(r.fields)
    ensures SameFields(r) <==> PortableFields(r)
  {
    hide PortableFields;
    hide AllFieldsBack;
    hide Lookup;
    if SameFields(r) {
      FieldsWerePortable(r);
    }
    if PortableFields(r) {
      forall name ensures Lookup(AllFieldsBack(r), name) == Lookup(r.fields, name) {
        FieldStays(r, name);
      }
    }
  }

  // ----- what becomes of a seed -----

  // Without the field that belongs in the Password column, a seed that comes
  // first is printed there when it is a text, and comes back as that field.
  lemma FirstFieldMoves(r: Record)
    requires DistinctNames(r.fields) && Lookup(r.fields, PrimaryFieldFor(r.kind)).None?
    ensures Lookup(AllFieldsBack(r), PrimaryFieldFor(r.kind))
         == if r.fields != [] && Readable(r.fields[0].1) then Some(r.fields[0].1) else None
  {
    hide AllFieldsBack;
    hide Readable;
    hide PrimaryFieldFor;
    hide Lookup;
    PrimaryIsNoTotp(r.kind);
    AllFieldsBackAre(r, PrimaryFieldFor(r.kind));
  }

  // A seed is lost exactly when it is empty or its settings are missing or
  // refused.
  lemma SeedComesBack(r: Record)
    requires DistinctNames(r.fields) && Lookup(r.fields, "totp").Some?
    ensures Lookup(AllFieldsBack(r), "totp") == Lookup(r.fields, "totp") <==> Enrolled(r)
    ensures !Enrolled(r) ==> Lookup(AllFieldsBack(r), "totp").None?
  {
    hide AllFieldsBack;
    hide TotpFits;
    hide Lookup;
    AllFieldsBackAre(r, "totp");
  }

  // A record with nothing but a seed.
  function SeedOnly(seed: string, totp: Option<Otpauth.TotpConfig>): Record {
    Record(Totp, Some("seed"), [], [], [("totp", Utf8(seed))], None, totp, "", "")
  }

  // Its seed comes back as a password, and without settings as nothing else.
  lemma SeedTurnsIntoPassword(seed: string, totp: Option<Otpauth.TotpConfig>)
    requires seed != ""
    ensures var r := SeedOnly(seed, totp);
            && Lookup(r.fields, "password") == None
            && Lookup(AllFieldsBack(r), "password") == Some(Utf8(seed))
            && (totp == None ==> Lookup(AllFieldsBack(r), "totp") == None)
  {
    hide AllFieldsBack;
    hide Utf8;
    hide TotpFits;
    hide FromUtf8;
    var r := SeedOnly(seed, totp);
    assert "password"[0] == 'p' && "totp"[0] == 't';
    assert r.fields[1..] == [];
    FromUtf8Exactly(Utf8(seed), seed);
    TextHasBytes(seed);
    FirstFieldMoves(r);
    SeedComesBack(r);
  }
}
