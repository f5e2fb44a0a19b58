/**
 * The pure transforms inside the admin page's state setters: the form update on an
 * input change (with slug derivation from the title), comma-separated tag and
 * category parsing, the team-member list updaters, and the body of a save request.
 */
module AdminForms {
  import opened Wrappers
  import opened Json
  import opened Text
  import opened Slug

  // ---------------------------------------------------------------- input changes

  /** The parts of a change event the handlers read: `name`, `value`, `type`, `checked`. */
  datatype InputEvent = InputEvent(name: string, value: string, isCheckbox: bool, checked: bool)

  /** The value a change stores: the checked state of a checkbox where the form honours it, the text otherwise. */
  function Stored(e: InputEvent, honoursCheckbox: bool): Value {
    if honoursCheckbox && e.isCheckbox then Bool(e.checked) else Str(e.value)
  }

  /** Store `stored` under `name`, and when `name` is the title, store `slug` under `slug` as well. */
  function Apply(form: Record, name: string, stored: Value, slug: Value): Record {
    var next := form[name := stored];
    if name == "title" then next["slug" := slug] else next
  }

  /**
   * `handleBlogInputChange` (`honoursCheckbox` false) and `handleEventInputChange` /
   * `handleNewsInputChange` (`honoursCheckbox` true): store the field, and when it is
   * the title, store the slug derived from it.
   */
  function InputChange(form: Record, e: InputEvent, honoursCheckbox: bool): Record {
    Apply(form, e.name, Stored(e, honoursCheckbox), Str(Slugify(e.value)))
  }

  /** The field is stored; besides it only the slug can change, and only on a title change. */
  lemma ApplyEffect(form: Record, name: string, stored: Value, slug: Value)
    ensures name in Apply(form, name, stored, slug) && Apply(form, name, stored, slug)[name] == stored
    ensures name != "title" && name != "slug" ==> Get(Apply(form, name, stored, slug), "slug") == Get(form, "slug")
    ensures forall k :: k in form && k != name && k != "slug" ==>
      k in Apply(form, name, stored, slug) && Apply(form, name, stored, slug)[k] == form[k]
    ensures forall k :: k in Apply(form, name, stored, slug) ==> k in form || k == name || k == "slug"
  {
    if name == "title" {
      assert name != "slug" by { assert name[0] != "slug"[0]; }
    }
  }

  /**
   * A change stores the field (the checked state for a checkbox where the form honours
   * it); no other field changes, except `slug`, and `slug` stays as it was unless the
   * field is the title or `slug` itself.
   */
  lemma InputChangeEffect(form: Record, e: InputEvent, honoursCheckbox: bool)
    ensures e.name in InputChange(form, e, honoursCheckbox)
    ensures InputChange(form, e, honoursCheckbox)[e.name]
      == if honoursCheckbox && e.isCheckbox then Bool(e.checked) else Str(e.value)
    ensures e.name != "title" && e.name != "slug" ==>
      Get(InputChange(form, e, honoursCheckbox), "slug") == Get(form, "slug")
    ensures forall k :: k in form && k != e.name && k != "slug" ==>
      k in InputChange(form, e, honoursCheckbox) && InputChange(form, e, honoursCheckbox)[k] == form[k]
    ensures forall k :: k in InputChange(form, e, honoursCheckbox) ==> k in form || k == e.name || k == "slug"
  {
    ApplyEffect(form, e.name, Stored(e, honoursCheckbox), Str(Slugify(e.value)));
  }

  /** A title change stores, next to the title, a slug that is well formed. */
  lemma TitleChangeSetsSlug(form: Record, e: InputEvent, honoursCheckbox: bool)
    requires e.name == "title"
    ensures var r := InputChange(form, e, honoursCheckbox);
      && "slug" in r && r["slug"] == Str(Slugify(e.value)) && IsSlug(Slugify(e.value))
  {
    SlugifyIsSlug(e.value);
  }

  // ---------------------------------------------------------------- tags and categories

  /** `.map(x => x.trim()).filter(x => x)`: trim every piece and drop the empty ones. */
  function TrimNonEmpty(parts: seq<string>): seq<string> {
    if parts == [] then []
    else
      var t := Trim(parts[0]);
      (if t != "" then [t] else []) + TrimNonEmpty(parts[1..])
  }

  /**
   * `handleTagsChange`, `handleCategoriesChange`, `handleNewsCategoriesChange`:
   * `value.split(',').map(x => x.trim()).filter(x => x)`.
   */
  function ParseList(value: string): seq<string> {
    TrimNonEmpty(Split(value, ','))
  }

  /** A well-formed list entry: non-empty, no surrounding whitespace, no comma. */
  predicate IsEntry(t: string) {
    t != "" && Trimmed(t) && ',' !in t
  }

  /** Every parsed entry is non-empty, has no surrounding whitespace and holds no comma. */
  lemma {:induction false} TrimNonEmptyEntries(parts: seq<string>)
    requires forall i :: 0 <= i < |parts| ==> ',' !in parts[i]
    ensures forall i :: 0 <= i < |TrimNonEmpty(parts)| ==> IsEntry(TrimNonEmpty(parts)[i])
  {
    if parts != [] {
      TrimNonEmptyEntries(parts[1..]);
    }
  }

  lemma ParseListEntries(value: string)
    ensures forall i :: 0 <= i < |ParseList(value)| ==> IsEntry(ParseList(value)[i])
  {
    TrimNonEmptyEntries(Split(value, ','));
  }

  /** Entries that are already well formed pass through trimming and filtering unchanged, in order. */
  lemma {:induction false} TrimNonEmptyOfEntries(tags: seq<string>)
    requires forall i :: 0 <= i < |tags| ==> IsEntry(tags[i])
    ensures TrimNonEmpty(tags) == tags
  {
    if tags != [] {
      TrimNonEmptyOfEntries(tags[1..]);
      assert [tags[0]] + tags[1..] == tags;
    }
  }

  /** Parsing the comma-joined form of well-formed entries gives back the same entries in the same order. */
  lemma ParseJoined(tags: seq<string>)
    requires forall i :: 0 <= i < |tags| ==> IsEntry(tags[i])
    ensures ParseList(Join(tags, ',')) == tags
  {
    if tags == [] {
      var empty: string := [];
      assert Join(tags, ',') == empty;
      assert Trimmed(empty);
      assert Split(empty, ',') == [empty];
      assert TrimNonEmpty([empty]) == [] + TrimNonEmpty([empty][1..]);
    } else {
      SplitJoin(tags, ',');
      TrimNonEmptyOfEntries(tags);
    }
  }

  /** `list.join(', ')`: how the forms show a parsed list back in its text input. */
  function Shown(tags: seq<string>): string {
    if |tags| == 0 then []
    else if |tags| == 1 then tags[0]
    else tags[0] + ", " + Shown(tags[1..])
  }

  /** The pieces after the first, each with the space that follows the comma in `", "`. */
  function Spaced(tags: seq<string>): (r: seq<string>)
    ensures |r| == |tags|
    ensures forall i :: 0 <= i < |tags| ==> r[i] == " " + tags[i]
  {
    seq(|tags|, i requires 0 <= i < |tags| => " " + tags[i])
  }

  /** Joining with `", "` is joining with `,` after putting a space in front of every later piece. */
  lemma {:induction false} ShownJoin(tags: seq<string>)
    requires |tags| >= 1
    ensures Shown(tags) == Join([tags[0]] + Spaced(tags[1..]), ',')
    ensures Join(Spaced(tags), ',') == " " + Shown(tags)
  {
    if |tags| >= 2 {
      ShownJoin(tags[1..]);
      assert ([tags[0]] + Spaced(tags[1..]))[1..] == Spaced(tags[1..]);
      assert Spaced(tags)[1..] == Spaced(tags[1..]);
    }
  }

  /** The space after a comma is trimmed away again. */
  lemma SpacedEntry(t: string)
    requires IsEntry(t)
    ensures Trim(" " + t) == t
  {
    var s := " " + t;
    assert IsSpace(s[0]) && s[1..] == t;
    assert SkipSpaces(s, 0) == 1 by {
      assert !IsSpace(s[1]);
    }
    assert !IsSpace(s[|s| - 1]);
  }

  lemma {:induction false} TrimNonEmptyOfSpaced(tags: seq<string>)
    requires forall i :: 0 <= i < |tags| ==> IsEntry(tags[i])
    ensures TrimNonEmpty(Spaced(tags)) == tags
  {
    if tags != [] {
      SpacedEntry(tags[0]);
      TrimNonEmptyOfSpaced(tags[1..]);
      assert Spaced(tags)[1..] == Spaced(tags[1..]);
      assert [tags[0]] + tags[1..] == tags;
    }
  }

  /** Parsing the text the form shows for well-formed entries gives back the same entries in the same order. */
  lemma ParseShown(tags: seq<string>)
    requires forall i :: 0 <= i < |tags| ==> IsEntry(tags[i])
    ensures ParseList(Shown(tags)) == tags
  {
    if tags == [] {
      ParseJoined(tags);
    } else {
      ParseShownNonEmpty(tags);
    }
  }

  lemma ParseShownNonEmpty(tags: seq<string>)
    requires |tags| >= 1
    requires forall i :: 0 <= i < |tags| ==> IsEntry(tags[i])
    ensures ParseList(Shown(tags)) == tags
  {
    var parts := [tags[0]] + Spaced(tags[1..]);
    assert Split(Join(parts, ','), ',') == parts by {
      SpacedWithoutComma(tags);
      SplitJoin(parts, ',');
    }
    assert TrimNonEmpty(parts) == tags by {
      TrimNonEmptyOfEntry(tags[0], Spaced(tags[1..]));
      TrimNonEmptyOfSpaced(tags[1..]);
      assert [tags[0]] + tags[1..] == tags;
    }
    ShownJoin(tags);
  }

  lemma SpacedWithoutComma(tags: seq<string>)
    requires |tags| >= 1
    requires forall i :: 0 <= i < |tags| ==> IsEntry(tags[i])
    ensures forall i :: 0 <= i < |tags| ==> ',' !in ([tags[0]] + Spaced(tags[1..]))[i]
  {
    forall i | 0 <= i < |tags| ensures ',' !in ([tags[0]] + Spaced(tags[1..]))[i] {
      if i > 0 {
        assert ([tags[0]] + Spaced(tags[1..]))[i] == " " + tags[i];
      }
    }
  }

  lemma TrimNonEmptyOfEntry(t: string, rest: seq<string>)
    requires IsEntry(t)
    ensures TrimNonEmpty([t] + rest) == [t] + TrimNonEmpty(rest)
  {
    assert ([t] + rest)[1..] == rest;
  }

  /** Parsing is idempotent through the form: re-editing a parsed list shown as text changes nothing. */
  lemma ParseStable(value: string)
    ensures ParseList(Shown(ParseList(value))) == ParseList(value)
  {
    ParseListEntries(value);
    ParseShown(ParseList(value));
  }

  // ---------------------------------------------------------------- team members

  /** A team member: `{name, image, id}` and whatever fields the editor sets. */
  type Member = map<string, Value>

  /** The member `addTeamMember` appends: `{name: '', image: null, id: Date.now()}`. */
  function BlankMember(now: real): Member {
    map["name" := Str(""), "image" := Null, "id" := Num(now)]
  }

  /** `addTeamMember`: `[...members, blank]`. */
  function AddMember(members: seq<Member>, now: real): (r: seq<Member>)
    ensures |r| == |members| + 1 && r[..|members|] == members && r[|members|] == BlankMember(now)
  {
    members + [BlankMember(now)]
  }

  /** `removeTeamMember(index)`: `members.filter((_, i) => i !== index)`, positions counted from `offset`. */
  function FilterOut(members: seq<Member>, index: int, offset: int): seq<Member> {
    if members == [] then []
    else (if offset != index then [members[0]] else []) + FilterOut(members[1..], index, offset + 1)
  }

  function RemoveMember(members: seq<Member>, index: int): seq<Member> {
    FilterOut(members, index, 0)
  }

  /** Filtering never drops a position other than `index`; with `index` outside, nothing is dropped. */
  lemma {:induction false} FilterOutEffect(members: seq<Member>, index: int, offset: int)
    ensures offset <= index < offset + |members| ==>
      FilterOut(members, index, offset) == members[..index - offset] + members[index - offset + 1..]
    ensures !(offset <= index < offset + |members|) ==> FilterOut(members, index, offset) == members
  {
    if members != [] {
      FilterOutEffect(members[1..], index, offset + 1);
      if offset == index {
        assert members[..0] + members[1..] == members[1..];
      } else if offset < index < offset + |members| {
        assert [members[0]] + (members[1..][..index - offset - 1] + members[1..][index - offset..])
            == members[..index - offset] + members[index - offset + 1..];
      } else {
        assert [members[0]] + members[1..] == members;
      }
    }
  }

  /** Removing deletes exactly position `index`, keeping the order of the others; an index out of range changes nothing. */
  lemma RemoveMemberEffect(members: seq<Member>, index: int)
    ensures 0 <= index < |members| ==>
      && |RemoveMember(members, index)| == |members| - 1
      && RemoveMember(members, index) == members[..index] + members[index + 1..]
    ensures !(0 <= index < |members|) ==> RemoveMember(members, index) == members
  {
    FilterOutEffect(members, index, 0);
  }

  /** Removing the member just added gives the list back. */
  lemma RemoveAddedMember(members: seq<Member>, now: real)
    ensures RemoveMember(AddMember(members, now), |members|) == members
  {
    RemoveMemberEffect(AddMember(members, now), |members|);
    assert AddMember(members, now)[..|members|] == members;
  }

  /** `updateTeamMember(index, field, value)`: `members.map((m, i) => i === index ? {...m, [field]: value} : m)`. */
  function UpdateMember(members: seq<Member>, index: int, field: string, value: Value): seq<Member> {
    seq(|members|, i requires 0 <= i < |members| => if i == index then members[i][field := value] else members[i])
  }

  /** Updating changes only `field` of member `index`, and keeps the length. */
  lemma UpdateMemberEffect(members: seq<Member>, index: int, field: string, value: Value)
    ensures var r := UpdateMember(members, index, field, value);
      && |r| == |members|
      && (forall i :: 0 <= i < |members| && i != index ==> r[i] == members[i])
      && (0 <= index < |members| ==>
            && r[index].Keys == members[index].Keys + {field}
            && r[index][field] == value
            && forall k :: k in members[index] && k != field ==> r[index][k] == members[index][k])
      && (!(0 <= index < |members|) ==> r == members)
  {
  }

  // ---------------------------------------------------------------- saving

  /** The body of a save request: the action and the record to send. */
  datatype SaveRequest = SaveRequest(action: string, item: Record)

  /** `editingId ? 'update' : 'create'` and `id: editingId || Date.now().toString()`. */
  function SaveAction(editingId: Value): string {
    if Truthy(Some(editingId)) then "update" else "create"
  }

  function SaveId(editingId: Value, nowMillis: string): Value {
    if Truthy(Some(editingId)) then editingId else Str(nowMillis)
  }

  /** `saveBlogPost` and `saveNewsArticle`: id as above, and `publishedAt || new Date().toISOString()`. */
  function SavePublished(form: Record, editingId: Value, nowMillis: string, nowIso: string): SaveRequest {
    var published := if Truthy(Get(form, "publishedAt")) then form["publishedAt"] else Str(nowIso);
    SaveRequest(SaveAction(editingId), form["id" := SaveId(editingId, nowMillis)]["publishedAt" := published])
  }

  /** `date + (time ? 'T' + time + ':00Z' : 'T00:00:00Z')`. */
  function EventDate(date: string, time: string): string {
    date + (if time != "" then "T" + time + ":00Z" else "T00:00:00Z")
  }

  /** `saveEvent`: id as above, and the event date joined with its time as a UTC timestamp. */
  function SaveEvent(form: Record, editingId: Value, nowMillis: string, date: string, time: string): SaveRequest {
    SaveRequest(SaveAction(editingId), form["id" := SaveId(editingId, nowMillis)]["eventDate" := Str(EventDate(date, time))])
  }

  /**
   * A save is an update exactly when an editing id is set, and then carries that id;
   * otherwise it is a create carrying a fresh id from the clock. All other fields of
   * the form are sent as they are.
   */
  lemma SaveRequestShape(form: Record, editingId: Value, nowMillis: string, nowIso: string)
    ensures var r := SavePublished(form, editingId, nowMillis, nowIso);
      && (r.action == "update" <==> Truthy(Some(editingId)))
      && (r.action == "update" || r.action == "create")
      && r.item["id"] == (if r.action == "update" then editingId else Str(nowMillis))
      && (Truthy(Get(form, "publishedAt")) ==> r.item["publishedAt"] == form["publishedAt"])
      && (!Truthy(Get(form, "publishedAt")) ==> r.item["publishedAt"] == Str(nowIso))
      && (forall k :: k in form && k != "id" && k != "publishedAt" ==> r.item[k] == form[k])
  {
  }

  /**
   * An event save follows the same update-or-create rule, sends the date joined with
   * the time (midnight when no time is given), and sends every other field as it is.
   */
  lemma SaveEventShape(form: Record, editingId: Value, nowMillis: string, date: string, time: string)
    ensures var r := SaveEvent(form, editingId, nowMillis, date, time);
      && (r.action == "update" <==> Truthy(Some(editingId)))
      && r.item["id"] == (if r.action == "update" then editingId else Str(nowMillis))
      && r.item["eventDate"] == Str(EventDate(date, time))
      && (time == "" ==> EventDate(date, time) == date + "T00:00:00Z")
      && (forall k :: k in form && k != "id" && k != "eventDate" ==> r.item[k] == form[k])
  {
  }

  /**
   * The event date always ends in `Z`, and editing the event again recovers the date
   * part with `eventDate.split('T')[0]` whenever the date itself holds no `T`.
   */
  lemma EventDateRoundTrip(date: string, time: string)
    requires 'T' !in date
    ensures EventDate(date, time)[|EventDate(date, time)| - 1] == 'Z'
    ensures Split(EventDate(date, time), 'T')[0] == date
  {
    var rest := if time != "" then time + ":00Z" else "00:00:00Z";
    assert EventDate(date, time) == date + ['T'] + rest;
    SplitAfterPiece(date, 'T', rest);
  }
}
