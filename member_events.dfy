/**
 * The channel chosen for the welcome message of `on_member_join`
 * (bot.py:1168-1232) and for the goodbye message of `on_member_remove`
 * (bot.py:1236-1275).
 */
module MemberEvents {
  import opened Wrappers
  import opened PyStr

  const WELCOME_KEYWORDS: seq<string> := ["welcome", "general", "lobby", "main"]
  const GOODBYE_KEYWORDS: seq<string> := ["goodbye", "leave", "general", "lobby"]

  /** A text channel of the guild. */
  datatype Channel = Channel(id: nat, name: string)

  /** What the handlers read from `member.guild`. */
  datatype Guild = Guild(textChannels: seq<Channel>, systemChannel: Option<Channel>)

  /** `text_channels[0]` on an empty list raises `IndexError`; the handler's
      `except Exception` prints it and sends nothing. */
  datatype SelectionError = NoTextChannel

  /** `any(name in channel_name.lower() for name in keywords)`. */
  predicate NameMatches(channelName: string, keywords: seq<string>)
  {
    exists i :: 0 <= i < |keywords| && Contains(Lower(channelName), keywords[i])
  }

  /** The first channel whose name matches, if any: the reference definition
      of the `for … break` search. */
  function FirstMatch(channels: seq<Channel>, keywords: seq<string>): (k: Option<nat>)
    ensures k.Some? ==> k.value < |channels| && NameMatches(channels[k.value].name, keywords)
    ensures k.Some? ==> forall j :: 0 <= j < k.value ==> !NameMatches(channels[j].name, keywords)
    ensures k.None? ==> forall j :: 0 <= j < |channels| ==> !NameMatches(channels[j].name, keywords)
  {
    if channels == [] then None
    else if NameMatches(channels[0].name, keywords) then Some(0)
    else match FirstMatch(channels[1..], keywords)
      case None => None
      case Some(k) => Some(k + 1)
  }

  /** The search loop and the fallback `system_channel or text_channels[0]`. */
  method SelectChannel(guild: Guild, keywords: seq<string>) returns (r: Result<Channel, SelectionError>)
    ensures FirstMatch(guild.textChannels, keywords).Some? ==>
      r == Ok(guild.textChannels[FirstMatch(guild.textChannels, keywords).value])
    ensures FirstMatch(guild.textChannels, keywords).None? ==>
      r == (if guild.systemChannel.Some? then Ok(guild.systemChannel.value)
            else if guild.textChannels != [] then Ok(guild.textChannels[0])
            else Err(NoTextChannel))
  {
    var channels := guild.textChannels;
    var chosen: Option<Channel> := None;
    var i := 0;
    while i < |channels|
      invariant 0 <= i <= |channels|
      invariant forall j :: 0 <= j < i ==> !NameMatches(channels[j].name, keywords)
      invariant chosen == None
    {
      if NameMatches(channels[i].name, keywords) {
        chosen := Some(channels[i]);
        break;
      }
      i := i + 1;
    }
    if chosen == None {
      if guild.systemChannel.Some? {
        chosen := guild.systemChannel;
      } else if channels != [] {
        chosen := Some(channels[0]);
      } else {
        return Err(NoTextChannel);
      }
    }
    r := Ok(chosen.value);
  }

  /** The welcome channel of `on_member_join`. */
  method WelcomeChannel(guild: Guild) returns (r: Result<Channel, SelectionError>)
    ensures r.Ok? ==> r.value in guild.textChannels || Some(r.value) == guild.systemChannel
    ensures r.Err? <==> guild.textChannels == [] && guild.systemChannel.None?
    ensures forall j :: 0 <= j < |guild.textChannels| && NameMatches(guild.textChannels[j].name, WELCOME_KEYWORDS) ==>
      exists k :: 0 <= k <= j && r == Ok(guild.textChannels[k]) && NameMatches(guild.textChannels[k].name, WELCOME_KEYWORDS)
    ensures FirstMatch(guild.textChannels, WELCOME_KEYWORDS).None? ==>
      r == (if guild.systemChannel.Some? then Ok(guild.systemChannel.value)
            else if guild.textChannels != [] then Ok(guild.textChannels[0])
            else Err(NoTextChannel))
  {
    r := SelectChannel(guild, WELCOME_KEYWORDS);
  }

  /** The goodbye channel of `on_member_remove`. */
  method GoodbyeChannel(guild: Guild) returns (r: Result<Channel, SelectionError>)
    ensures r.Ok? ==> r.value in guild.textChannels || Some(r.value) == guild.systemChannel
    ensures r.Err? <==> guild.textChannels == [] && guild.systemChannel.None?
    ensures forall j :: 0 <= j < |guild.textChannels| && NameMatches(guild.textChannels[j].name, GOODBYE_KEYWORDS) ==>
      exists k :: 0 <= k <= j && r == Ok(guild.textChannels[k]) && NameMatches(guild.textChannels[k].name, GOODBYE_KEYWORDS)
    ensures FirstMatch(guild.textChannels, GOODBYE_KEYWORDS).None? ==>
      r == (if guild.systemChannel.Some? then Ok(guild.systemChannel.value)
            else if guild.textChannels != [] then Ok(guild.textChannels[0])
            else Err(NoTextChannel))
  {
    r := SelectChannel(guild, GOODBYE_KEYWORDS);
  }
}
