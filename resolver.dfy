/**
 * get_container_ip: which Docker network of a container is meant, and the
 * container's IP address on it. The Docker client is a map from container id
 * or name to the container's attributes.
 */
module Resolver {
  import opened Wrappers
  import opened Text
  import opened Errors

  /** `attrs['NetworkSettings']['Networks'][name]`, of which only `IPAddress` is read. */
  datatype Endpoint = Endpoint(ipAddress: string)

  /**
   * The parts of a container's `attrs` the resolver reads:
   * `HostConfig.NetworkMode` and `NetworkSettings.Networks`.
   */
  datatype ContainerAttrs = ContainerAttrs(networkMode: string, networks: map<string, Endpoint>)

  /** The containers the Docker daemon knows, by id or name. */
  type Daemon = map<string, ContainerAttrs>

  /** Python truthiness of the optional `network` argument: neither None nor the empty string. */
  predicate Truthy(network: Option<string>) {
    network.Some? && network.value != ""
  }

  /** The network name get_container_ip looks up. */
  function NetworkName(attrs: ContainerAttrs, network: Option<string>): string {
    if Truthy(network) then network.value
    else if attrs.networkMode == "default" then "bridge"
    else attrs.networkMode
  }

  const NetworkNotFoundHead := "此 "
  const NetworkNotFoundMid := " 容器找不到 "
  const NetworkNotFoundTail := " 网络名, 请使用 network 指定使用的网络名; 若已使用 network 参数，请确定参数是否正确(使用 docker inspect 命令可以查看)"

  /** The text of the RuntimeError raised when the network is not attached. */
  function NetworkNotFoundMessage(idOrName: string, name: string): string {
    NetworkNotFoundHead + idOrName + NetworkNotFoundMid + name + NetworkNotFoundTail
  }

  /**
   * get_container_ip(id_or_name, network): the IP address of the container on
   * the chosen network, or the error the call raises.
   */
  function GetContainerIp(daemon: Daemon, idOrName: string, network: Option<string>): (r: Result<string, Failure>)
    ensures idOrName !in daemon ==> r == Failure(ContainerNotFound(idOrName))
    ensures idOrName in daemon ==>
      var attrs := daemon[idOrName];
      var name := NetworkName(attrs, network);
      && (r.Success? <==> name in attrs.networks)
      && (r.Success? ==> r.value == attrs.networks[name].ipAddress)
      && (r.Failure? ==> r.error == NetworkNotFound(NetworkNotFoundMessage(idOrName, name)))
  {
    if idOrName !in daemon then Failure(ContainerNotFound(idOrName))
    else
      var attrs := daemon[idOrName];
      var name := NetworkName(attrs, network);
      if name !in attrs.networks then Failure(NetworkNotFound(NetworkNotFoundMessage(idOrName, name)))
      else Success(attrs.networks[name].ipAddress)
  }

  /** A given network name decides alone: the container's network mode plays no part. */
  lemma ExplicitNetworkWins(a: ContainerAttrs, b: ContainerAttrs, network: Option<string>)
    requires Truthy(network)
    ensures NetworkName(a, network) == network.value == NetworkName(b, network)
  {
  }

  /**
   * Without a usable network argument (None or the empty string alike) the
   * name comes from the network mode alone, and the Docker alias `default` is
   * always replaced by `bridge`, so `default` itself is never looked up.
   */
  lemma ImplicitNetworkFromMode(attrs: ContainerAttrs, network: Option<string>)
    requires !Truthy(network)
    ensures NetworkName(attrs, network) == NetworkName(attrs, None) == NetworkName(attrs, Some(""))
    ensures attrs.networkMode == "default" ==> NetworkName(attrs, network) == "bridge"
    ensures NetworkName(attrs, network) != "default"
    ensures attrs.networkMode != "default" ==> NetworkName(attrs, network) == attrs.networkMode
  {
  }

  /** The error text names both the container and the network, so the call can be re-issued with `network`. */
  lemma NetworkNotFoundNamesBoth(idOrName: string, name: string)
    ensures Contains(NetworkNotFoundMessage(idOrName, name), idOrName)
    ensures Contains(NetworkNotFoundMessage(idOrName, name), name)
  {
    ContainsSecondAndFourth(NetworkNotFoundHead, idOrName, NetworkNotFoundMid, name, NetworkNotFoundTail);
  }

  /**
   * For a known container, the lookup fails exactly when the chosen network is
   * not attached, and the failure names the container and the network; a
   * success is the address of one of the attached networks.
   */
  lemma GetContainerIpOutcome(daemon: Daemon, idOrName: string, network: Option<string>)
    requires idOrName in daemon
    ensures var attrs := daemon[idOrName];
      var name := NetworkName(attrs, network);
      var r := GetContainerIp(daemon, idOrName, network);
      && (r.Failure? ==> name !in attrs.networks && r.error.NetworkNotFound?
                         && Contains(r.error.message, idOrName) && Contains(r.error.message, name))
      && (r.Success? ==> exists n :: n in attrs.networks && r.value == attrs.networks[n].ipAddress)
  {
    NetworkNotFoundNamesBoth(idOrName, NetworkName(daemon[idOrName], network));
  }
}
