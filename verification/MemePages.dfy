/** The pages that ask for a token: editing and deleting a meme, and the denial both fall back on. */
module MemePages {
  import opened Text
  import opened UrlCodec
  import opened FormBody
  import opened MemeStore
  import opened MemeRuns
  import opened Numerals
  import opened PageTemplate

  const DENIED := "<div id=\"editor\"><p>Access Token Denied</p>"
  const CLOSING := "</div></body></html>"

  /** What the edit page puts in for the placeholders; nothing but the id for a meme that is not there. */
  function EditValues(t: Table, id: string): Values {
    match Fetched(t, id)
    case None => Values(id, HtmlDecoded(""), "", HtmlDecoded(""), HtmlDecoded(""), "")
    case Some(row) =>
      Values(id, HtmlDecoded(row.meme.name), row.meme.image, HtmlDecoded(row.meme.top), HtmlDecoded(row.meme.bottom),
             row.token)
  }

  /** What the view page puts in: the stored texts as they are. */
  function ViewValues(row: Row, id: string): Values {
    Values(id, row.meme.name, row.meme.image, row.meme.top, row.meme.bottom, row.token)
  }

  /** The body of the view page; None when there is no such meme. */
  function ViewBody(t: Table, id: string, before: string, view_html: string, denied: bool): Option<string> {
    match Fetched(t, id)
    case None => None
    case Some(row) =>
      Some(FillInOrder(before + view_html + (if denied then DENIED else "") + CLOSING, SOURCE_ORDER, ViewValues(row, id)))
  }

  /** Which column stands in which placeholder: on the edit page the decoded texts, on the view page the stored
      ones; image and token as stored on both. */
  lemma Columns(t: Table, id: string)
    requires id in t && Whole(t[id])
    ensures var v := EditValues(t, id);
            && v.Of(Id) == id && v.Of(Img) == t[id].meme.image && v.Of(Atoken) == t[id].token
            && v.Of(Name) == HtmlDecoded(t[id].meme.name)
            && v.Of(Top) == HtmlDecoded(t[id].meme.top) && v.Of(Bot) == HtmlDecoded(t[id].meme.bottom)
    ensures Fetched(t, id).Some?
    ensures var v := ViewValues(Fetched(t, id).value, id);
            && v.Of(Id) == id && v.Of(Img) == t[id].meme.image && v.Of(Atoken) == t[id].token
            && v.Of(Name) == t[id].meme.name && v.Of(Top) == t[id].meme.top && v.Of(Bot) == t[id].meme.bottom
  {
    hide HtmlDecoded, CString, Whole;
    WholeIsRead(t[id]);
  }

  lemma NoColumns(t: Table, id: string)
    requires id !in t
    ensures Fetched(t, id) == None && EditValues(t, id) == Values(id, "", "", "", "", "")
  {
    hide HtmlDecoded;
    DecodeLeavesAlone("");
  }

  /** The denial in words: the view page of the meme, with a remark before its end. */
  lemma DenialPage(t: Table, id: string, view_html: string)
    ensures ViewBody(t, id, "", view_html, true) ==
            match Fetched(t, id)
            case None => None
            case Some(row) =>
              Some(FillInOrder(view_html + "<div id=\"editor\"><p>Access Token Denied</p>" + "</div></body></html>",
                               SOURCE_ORDER, ViewValues(row, id)))
  {
    hide FillInOrder;
    assert "" + view_html == view_html;
  }

  ghost predicate MayChange(t: Table, body: string)
    requires BodyDefined(body)
  {
    Authorized(t, Get(ParsedBody(body), "access-token"))
  }

  class MemeHandler {
    const db: MemeDatabase
    var memebody_: string
    var errorflag: bool

    constructor (db: MemeDatabase)
      ensures this.db == db && memebody_ == "" && !errorflag
    {
      this.db := db;
      memebody_ := "";
      errorflag := false;
    }

    method MemeView(incorrectAccessToken: bool, meme_id: string, view_html: string) returns (failed: bool)
      modifies this`memebody_
      ensures match ViewBody(db.table, meme_id, old(memebody_), view_html, incorrectAccessToken)
              case None => failed && memebody_ == old(memebody_)
              case Some(page) => !failed && memebody_ == page
    {
      hide FillInOrder, CString;
      var row := db.GetMemeFromDatabase(meme_id);
      match row
      case None =>
        return true;
      case Some(r) =>
        memebody_ := memebody_ + view_html;
        if incorrectAccessToken {
          memebody_ := memebody_ + DENIED;
        }
        assert old(memebody_) + view_html + "" == old(memebody_) + view_html;
        memebody_ := memebody_ + CLOSING;
        memebody_ := FillPage(memebody_, ViewValues(r, meme_id));
        return false;
    }

    method MemeEdit(meme_id: string, edit_html: string) returns (failed: bool)
      modifies this`memebody_
      ensures !failed && memebody_ == FillInOrder(old(memebody_) + edit_html, SOURCE_ORDER, EditValues(db.table, meme_id))
    {
      hide FillInOrder, HtmlDecoded, CString;
      memebody_ := memebody_ + edit_html;
      var row := db.GetMemeFromDatabase(meme_id);
      var m := if row.Some? then row.value else Row(Meme("", "", "", ""), "");
      var name := HtmlDecode(m.meme.name);
      var top := HtmlDecode(m.meme.top);
      var bottom := HtmlDecode(m.meme.bottom);
      memebody_ := FillPage(memebody_, Values(meme_id, name, m.meme.image, top, bottom, m.token));
      return false;
    }

    /** The request for the edit page. */
    method HandleEdit(meme_id: string, body: string, edit_html: string, view_html: string)
      requires BodyDefined(body)
      modifies this
      ensures MayChange(db.table, body) ==>
                !errorflag && memebody_ == FillInOrder(old(memebody_) + edit_html, SOURCE_ORDER, EditValues(db.table, meme_id))
      ensures !MayChange(db.table, body) ==>
                match ViewBody(db.table, meme_id, old(memebody_), view_html, true)
                case None => errorflag && memebody_ == old(memebody_)
                case Some(page) => !errorflag && memebody_ == page
    {
      hide FillInOrder, EditValues, ViewBody, Authorized, ParsedBody, BodyDefined;
      var isAuthorized := db.verifyTokenAuthentication(body);
      if isAuthorized {
        errorflag := MemeEdit(meme_id, edit_html);
      } else {
        errorflag := MemeView(true, meme_id, view_html);
      }
    }

    /** The request to delete a meme. After a deletion the flag is `leftover`, since nothing is returned for it. */
    method HandleDelete(meme_id: string, body: string, delete_html: string, view_html: string, leftover: bool)
      requires BodyDefined(body) && IsNumeral(meme_id)
      modifies this, db`table
      ensures db.table == AfterDelete(old(db.table), meme_id, body)
      ensures MayChange(old(db.table), body) ==> errorflag == leftover && memebody_ == old(memebody_) + delete_html
      ensures !MayChange(old(db.table), body) ==>
                match ViewBody(old(db.table), meme_id, old(memebody_), view_html, true)
                case None => errorflag && memebody_ == old(memebody_)
                case Some(page) => !errorflag && memebody_ == page
    {
      hide ViewBody, Authorized, ParsedBody, BodyDefined;
      var isAuthorized := db.verifyTokenAuthentication(body);
      if isAuthorized {
        db.MemeDelete(meme_id);
        memebody_ := memebody_ + delete_html;
        errorflag := leftover;
      } else {
        errorflag := MemeView(true, meme_id, view_html);
      }
    }
  }

  /** The table after a request to delete a meme. */
  ghost function AfterDelete(t: Table, id: string, body: string): Table
    requires BodyDefined(body)
  {
    if MayChange(t, body) then Apply(t, Delete(id)) else t
  }

  function TokenForm(token: string): string { "access-token=" + token }

  /** The check never looks at the id: a request to delete any live meme is carried out exactly when its token is
      the master token or that of some live row; otherwise the table stays. */
  lemma DeleteCarriedOut(t: Table, id: string, token: string)
    requires TokensFit(t) && Free(token, {'&', '='})
    ensures BodyDefined(TokenForm(token))
    ensures var t' := AfterDelete(t, id, TokenForm(token));
            && (id in t ==>
                (id !in t' <==> token == "partialnotcomplete" || exists other :: other in t && t[other].token == token))
            && (forall other | other in t && other != id :: other in t' && t'[other] == t[other])
            && t'.Keys <= t.Keys
  {
    hide TokensFit, Authorized, BodyDefined, ParsedBody;
    TokenBody(token);
    if token == "partialnotcomplete" {
      MasterIsAuthorized(t);
    } else {
      TokenDecides(t, token);
    }
  }

  lemma MasterIsAuthorized(t: Table)
    ensures Authorized(t, "partialnotcomplete")
  {
  }

  /** So the token of one meme deletes another. */
  lemma TokenDeletesAnother(t: Table, mine: string, other: string)
    requires TokensFit(t) && mine in t && other in t
    ensures Free(t[mine].token, {'&', '='}) && BodyDefined(TokenForm(t[mine].token))
    ensures AfterDelete(t, other, TokenForm(t[mine].token)) == t - {other}
  {
    hide Authorized, BodyDefined, ParsedBody, Split, CString;
    TokenSplits(mine, t[mine].token);
    TokenBody(t[mine].token);
    if t[mine].token == "partialnotcomplete" {
      MasterIsAuthorized(t);
    } else {
      TokenDecides(t, t[mine].token);
    }
  }

  /** What a posted form of at least three pairs does to the table. When its last `posttype` encodes "edit" it
      writes the row its last `meme_id` names, keeping that row's token; in every other case it writes the row
      of the next id, with a token made for it. The row holds the form's texts and image, and no other row
      changes. */
  lemma FormDecides(form: seq<Pair>, t: Table, random: nat -> nat)
    requires |form| >= 3 && forall i | 0 <= i < |form| :: ValidPair(form[i])
    requires Countable(t.Keys)
    ensures var body := Join(Items(form), "&");
            var edits := LastValue(form, "posttype").Some? && FormEncodes(LastValue(form, "posttype").value, "edit");
            var id := if edits then LastParsed(form, "meme_id") else NextId(t.Keys);
            && BodyDefined(body)
            && var t' := Apply(t, PostedOp(body, random));
            && id == TargetId(t, PostedOp(body, random))
            && t'.Keys == t.Keys + {id}
            && (forall other | other in t && other != id :: t'[other] == t[other])
            && t'[id].meme == Meme(HtmlEncoded(LastParsed(form, "name")),
                                   "meme_templates/" + (if Deepfried(form) then "df-" else "") + LastParsed(form, "image"),
                                   HtmlEncoded(LastParsed(form, "top")), HtmlEncoded(LastParsed(form, "bottom")))
            && (if !edits then TokenFor(id, t'[id].token)
                else if id in t then t'[id].token == CString(t[id].token)
                else t'[id].token == "00001")
  {
    hide BodyDefined, ParsedBody, ValidPair, FormEncodes, Countable, Join, NextId, LastValue, CString, LastParsed, Encode,
         Deepfried, TokenFor, Scramble;
    PostedFields(form, "posttype");
    PostedFields(form, "meme_id");
    PostedFields(form, "name");
    PostedFields(form, "image");
    PostedFields(form, "top");
    PostedFields(form, "bottom");
    TypeIsEdit(form);
    TokenIsFor(NextId(t.Keys), random);
    WritesOne(t, PostedOp(Join(Items(form), "&"), random));
  }

  lemma TypeIsEdit(form: seq<Pair>)
    requires forall i | 0 <= i < |form| :: ValidPair(form[i])
    ensures LastParsed(form, "posttype") == "edit" <==>
            LastValue(form, "posttype").Some? && FormEncodes(LastValue(form, "posttype").value, "edit")
  {
    hide LastValue, FormEncodes, ValidPair, FieldValue;
    LastIsValid(form, "posttype");
    EditIsPlain();
    match LastValue(form, "posttype")
    case None =>
    case Some(e) => ValueIsWord(e, "edit");
  }

  lemma EditIsPlain()
    ensures PlainWord("edit")
  {
  }

  lemma WritesOne(t: Table, op: Op)
    requires !op.Delete? && (op.Create? ==> Countable(t.Keys))
    ensures var (t', id) := (Apply(t, op), TargetId(t, op));
            t'.Keys == t.Keys + {id} && (forall other | other in t && other != id :: t'[other] == t[other])
  {
    hide Countable, NextId, Scramble, CString;
  }

  /** A posted form, stored as a new meme or over an old one, comes up on the edit page with the texts `Shown`
      says, each in its placeholder, as long as no value holds the placeholder of a later one. */
  lemma EditPageOfForm(form: seq<Pair>, t: Table, random: nat -> nat, page: string,
                       name: string, top: string, bottom: string, e1: string, e2: string, e3: string)
    requires |form| >= 3 && forall i | 0 <= i < |form| :: ValidPair(form[i])
    requires LastValue(form, "name") == Some(e1) && FormEncodes(e1, name)
    requires LastValue(form, "top") == Some(e2) && FormEncodes(e2, top)
    requires LastValue(form, "bottom") == Some(e3) && FormEncodes(e3, bottom)
    requires var body := Join(Items(form), "&");
             BodyDefined(body) && PostedOp(body, random).Create? ==> Countable(t.Keys)
    ensures var body := Join(Items(form), "&");
            && BodyDefined(body)
            && var op := PostedOp(body, random);
               var id := TargetId(t, op);
               var v := EditValues(Apply(t, op), id);
            && v.id == id && v.name == Shown(name) && v.top == Shown(top) && v.bot == Shown(bottom)
            && (Bracketed(page, true) && Undisturbed(SOURCE_ORDER, v) ==>
                FillInOrder(page, SOURCE_ORDER, v) == Fill(page, ALL_SLOTS, v))
  {
    hide BodyDefined, ParsedBody, ValidPair, FormEncodes, HtmlDecoded, Countable, Join, NextId, LastValue, CString,
         Apply, TargetId, Shown, FillInOrder, Fill, Bracketed, Undisturbed;
    FormToEditPage(form, t, random, name, top, bottom, e1, e2, e3);
    var op := PostedOp(Join(Items(form), "&"), random);
    var v := EditValues(Apply(t, op), TargetId(t, op));
    if Bracketed(page, true) && Undisturbed(SOURCE_ORDER, v) {
      FillInPlace(page, v);
      assert SlotsOf(SOURCE_ORDER) == ALL_SLOTS;
    }
  }
}
